/** Repeated string instructions with 32-bit addressing on plain RAM: whole
    pages at a time, in bulk where regions allow it, and in slices that give way
    to interrupts - against one element at a time.

    The page tables do not change while the instruction runs, so translation is
    a fixed map from linear pages to frames for reading and one for writing; a
    page missing from it faults. */
module RepString {
  import opened Sequences

  const WORD: int := 0x1_0000_0000

  type Word = x: nat | x < WORD

  type Byte = b: nat | b < 256

  const PAGE: int := 4096

  datatype Option<T> = None | Some(value: T)

  /** What an execution is given: what STOS stores (MOVS has no such element),
      element size, direction flag, segment bases, translations, and the
      switches of the fast paths. */
  datatype Config = Config(
    fill: Option<seq<Byte>>,
    size: nat,
    down: bool,
    srcBase: Word,
    dstBase: Word,
    readMap: map<nat, nat>,
    writeMap: map<nat, nat>,
    bulk: bool,
    givesWay: bool,
    slice: nat,
    ram: nat)
  {
    predicate Valid() {
      && (size == 1 || size == 2 || size == 4)
      && slice > 0
      && (fill.Some? ==> |fill.value| == size)
      && (forall p :: p in readMap ==> readMap[p] * PAGE + PAGE <= ram)
      && (forall p :: p in writeMap ==> writeMap[p] * PAGE + PAGE <= ram)
    }

    function Dir(): int {
      if down then 0 - size else size
    }

    /** STOS leaves ESI alone. */
    function SrcDir(): int {
      if fill.Some? then 0 else Dir()
    }
  }

  /** Memory and the registers a string instruction moves. */
  datatype State = State(mem: seq<Byte>, esi: Word, edi: Word, ecx: Word)

  /** Addition that wraps at 2^32. */
  function Add(x: Word, d: int): Word
    requires 0 - WORD <= d < WORD
  {
    if x + d >= WORD then x + d - WORD else if x + d < 0 then x + d + WORD else x + d
  }

  // ------------------------------------------------------------ one element

  /** Where an element lies: its bytes from `first` on, the ones past the end of
      the page from `second` on. */
  datatype Place = Place(first: nat, inFirst: nat, second: nat)

  function Locate(pages: map<nat, nat>, laddr: Word, size: nat): (p: Option<Place>)
  {
    var page, off := laddr / PAGE, laddr % PAGE;
    if page !in pages then None
    else if off + size <= PAGE then Some(Place(pages[page] * PAGE + off, size, 0))
    else if page + 1 !in pages then None
    else Some(Place(pages[page] * PAGE + off, PAGE - off, pages[page + 1] * PAGE))
  }

  /** A page fault: the address that could not be translated, and for what. */
  datatype Fault = Fault(laddr: Word, writing: bool)

  /** The address that translating an element fails at: its own, or the start of
      the next page. */
  function Missing(pages: map<nat, nat>, laddr: Word, size: nat): (m: Option<Word>)
    ensures m.Some? <==> Locate(pages, laddr, size).None?
  {
    var page, off := laddr / PAGE, laddr % PAGE;
    if page !in pages then Some(laddr)
    else if off + size > PAGE && page + 1 !in pages then Some((page + 1) * PAGE % WORD)
    else None
  }

  predicate InRam(p: Place, size: nat, ram: nat) {
    p.inFirst <= size && p.first + p.inFirst <= ram && p.second + (size - p.inFirst) <= ram
  }

  function LoadAt(mem: seq<Byte>, p: Place, size: nat): (d: seq<Byte>)
    requires InRam(p, size, |mem|)
    ensures |d| == size
  {
    mem[p.first..p.first + p.inFirst] + mem[p.second..p.second + (size - p.inFirst)]
  }

  function StoreAt(mem: seq<Byte>, p: Place, data: seq<Byte>): (r: seq<Byte>)
    requires InRam(p, |data|, |mem|)
    ensures |r| == |mem|
  {
    Splice(Splice(mem, p.first, data[..p.inFirst]), p.second, data[p.inFirst..])
  }

  lemma LocatedInRam(cfg: Config, ram: nat, laddr: Word)
    requires cfg.Valid() && ram == cfg.ram
    ensures
      var r := Locate(cfg.readMap, laddr, cfg.size);
      r.Some? ==> InRam(r.value, cfg.size, ram)
    ensures
      var w := Locate(cfg.writeMap, laddr, cfg.size);
      w.Some? ==> InRam(w.value, cfg.size, ram)
  {
  }

  /** MOVS or STOS once; None is a page fault, which leaves everything as it was. */
  function MoveOne(cfg: Config, s: State): (r: Option<State>)
    requires cfg.Valid() && |s.mem| == cfg.ram && s.ecx > 0
    ensures r.Some? ==> |r.value.mem| == |s.mem| && r.value.ecx == s.ecx - 1
  {
    var data := ReadElement(cfg, s);
    var to := Locate(cfg.writeMap, Add(s.edi, cfg.dstBase), cfg.size);
    LocatedInRam(cfg, |s.mem|, Add(s.edi, cfg.dstBase));
    if data.None? || to.None? then None
    else Some(State(StoreAt(s.mem, to.value, data.value),
                    Add(s.esi, cfg.SrcDir()), Add(s.edi, cfg.Dir()), s.ecx - 1))
  }

  /** The element to store: AL, AX or EAX for STOS, the source element for MOVS. */
  function ReadElement(cfg: Config, s: State): (d: Option<seq<Byte>>)
    requires cfg.Valid() && |s.mem| == cfg.ram
    ensures d.Some? ==> |d.value| == cfg.size
  {
    if cfg.fill.Some? then cfg.fill
    else
      var from := Locate(cfg.readMap, Add(s.esi, cfg.srcBase), cfg.size);
      LocatedInRam(cfg, |s.mem|, Add(s.esi, cfg.srcBase));
      if from.None? then None else Some(LoadAt(s.mem, from.value, cfg.size))
  }

  /** The fault of the next element, if it has one: the source is translated
      before the destination. */
  function FaultOf(cfg: Config, s: State): Option<Fault> {
    var from, to := Missing(cfg.readMap, Add(s.esi, cfg.srcBase), cfg.size), Missing(cfg.writeMap, Add(s.edi, cfg.dstBase), cfg.size);
    if cfg.fill.None? && from.Some? then Some(Fault(from.value, false))
    else if to.Some? then Some(Fault(to.value, true))
    else None
  }

  lemma FaultsExactly(cfg: Config, s: State)
    requires cfg.Valid() && |s.mem| == cfg.ram && s.ecx > 0
    ensures FaultOf(cfg, s).Some? <==> MoveOne(cfg, s).None?
  {
  }

  // -------------------------------------------------------------- byte by byte

  /** A byte is where the page of its own linear address is. */
  lemma ByteAt(pages: map<nat, nat>, laddr: Word, size: nat, j: nat)
    requires Locate(pages, laddr, size).Some? && j < size <= 4
    ensures
      var p := Locate(pages, laddr, size).value;
      && (laddr + j) / PAGE in pages && p.inFirst <= size
      && pages[(laddr + j) / PAGE] * PAGE + (laddr + j) % PAGE == if j < p.inFirst then p.first + j else p.second + (j - p.inFirst)
  {
    var page, off := laddr / PAGE, laddr % PAGE;
    assert laddr + j == page * PAGE + (off + j);
    if off + j < PAGE {
      assert (laddr + j) / PAGE == page && (laddr + j) % PAGE == off + j;
    } else {
      assert laddr + j == (page + 1) * PAGE + (off + j - PAGE);
      assert (laddr + j) / PAGE == page + 1 && (laddr + j) % PAGE == off + j - PAGE;
    }
  }

  lemma LoadedByte(mem: seq<Byte>, p: Place, size: nat, j: nat)
    requires InRam(p, size, |mem|) && j < size
    ensures LoadAt(mem, p, size)[j] == if j < p.inFirst then mem[p.first + j] else mem[p.second + (j - p.inFirst)]
  {
  }

  lemma SplicedByte(base: seq<Byte>, at: nat, data: seq<Byte>, i: nat)
    requires at + |data| <= |base| && i < |base|
    ensures Splice(base, at, data)[i] == if at <= i < at + |data| then data[i - at] else base[i]
  {
  }

  /** The two parts of an element do not overlap. */
  predicate Apart(p: Place, size: nat) {
    p.inFirst < size ==> p.first + p.inFirst <= p.second || p.second + (size - p.inFirst) <= p.first
  }

  lemma LocatedApart(pages: map<nat, nat>, laddr: Word, size: nat)
    requires Locate(pages, laddr, size).Some? && size <= 4
    ensures Apart(Locate(pages, laddr, size).value, size)
  {
    var page, off := laddr / PAGE, laddr % PAGE;
    if off + size > PAGE {
      FramesApart(pages[page], pages[page + 1], off, size);
    }
  }

  lemma FramesApart(f: nat, g: nat, off: nat, size: nat)
    requires size <= 4 && off < PAGE < off + size
    ensures f * PAGE + PAGE <= g * PAGE || g * PAGE + (off + size - PAGE) <= f * PAGE + off
  {
    if f < g {
      assert (f + 1) * PAGE <= g * PAGE;
    } else {
      assert g * PAGE <= f * PAGE;
    }
  }

  lemma StoredByte(mem: seq<Byte>, p: Place, data: seq<Byte>, i: nat)
    requires InRam(p, |data|, |mem|) && Apart(p, |data|) && i < |mem|
    ensures
      StoreAt(mem, p, data)[i] ==
      if p.first <= i < p.first + p.inFirst then data[i - p.first]
      else if p.second <= i < p.second + (|data| - p.inFirst) then data[p.inFirst + (i - p.second)]
      else mem[i]
  {
    SplicedByte(mem, p.first, data[..p.inFirst], i);
    SplicedByte(Splice(mem, p.first, data[..p.inFirst]), p.second, data[p.inFirst..], i);
  }

  /** One element: byte `j` of the destination gets the fill's byte or the source's,
      each found through the page of its own linear address, DS:ESI for reading and
      ES:EDI for writing. */
  lemma MovesByte(cfg: Config, s: State, j: nat)
    requires cfg.Valid() && |s.mem| == cfg.ram && s.ecx > 0 && MoveOne(cfg, s).Some? && j < cfg.size
    ensures
      var s', to, from := MoveOne(cfg, s).value, (s.edi + cfg.dstBase) % WORD + j, (s.esi + cfg.srcBase) % WORD + j;
      && to / PAGE in cfg.writeMap && cfg.writeMap[to / PAGE] * PAGE + to % PAGE < |s'.mem|
      && (cfg.fill.Some? ==> s'.mem[cfg.writeMap[to / PAGE] * PAGE + to % PAGE] == cfg.fill.value[j])
      && (cfg.fill.None? ==>
            && from / PAGE in cfg.readMap && cfg.readMap[from / PAGE] * PAGE + from % PAGE < |s.mem|
            && s'.mem[cfg.writeMap[to / PAGE] * PAGE + to % PAGE] == s.mem[cfg.readMap[from / PAGE] * PAGE + from % PAGE])
  {
    hide Locate, StoreAt, LoadAt;
    var to, from := Add(s.edi, cfg.dstBase), Add(s.esi, cfg.srcBase);
    assert to == (s.edi + cfg.dstBase) % WORD && from == (s.esi + cfg.srcBase) % WORD;
    LocatedInRam(cfg, cfg.ram, to);
    LocatedInRam(cfg, cfg.ram, from);
    ByteAt(cfg.writeMap, to, cfg.size, j);
    LocatedApart(cfg.writeMap, to, cfg.size);
    var p, data := Locate(cfg.writeMap, to, cfg.size).value, ReadElement(cfg, s).value;
    StoredByte(s.mem, p, data, if j < p.inFirst then p.first + j else p.second + (j - p.inFirst));
    if cfg.fill.None? {
      ByteAt(cfg.readMap, from, cfg.size, j);
      LoadedByte(s.mem, Locate(cfg.readMap, from, cfg.size).value, cfg.size, j);
    }
  }

  /** Byte `j` of what is at a linear address has its page. */
  predicate Mapped(pages: map<nat, nat>, laddr: nat, j: nat) {
    (laddr + j) / PAGE in pages
  }

  /** And lies at this physical address. */
  predicate Touches(pages: map<nat, nat>, laddr: nat, j: nat, at: nat) {
    Mapped(pages, laddr, j) && at == pages[(laddr + j) / PAGE] * PAGE + (laddr + j) % PAGE
  }

  /** No other byte of memory changes; STOS leaves ESI alone, and the direction flag
      says which way the registers go. */
  lemma MovesNothingElse(cfg: Config, s: State, to: nat, i: nat)
    requires cfg.Valid() && |s.mem| == cfg.ram && s.ecx > 0 && MoveOne(cfg, s).Some? && i < |s.mem|
    requires to == (s.edi + cfg.dstBase) % WORD
    ensures MoveOne(cfg, s).value.mem[i] == s.mem[i] || exists j: nat :: j < cfg.size && Touches(cfg.writeMap, to, j, i)
    ensures
      var s', step := MoveOne(cfg, s).value, if cfg.down then WORD - cfg.size else cfg.size;
      s'.edi == (s.edi + step) % WORD && s'.ecx == s.ecx - 1 && s'.esi == if cfg.fill.Some? then s.esi else (s.esi + step) % WORD
  {
    hide Locate, StoreAt, LoadAt;
    assert to == Add(s.edi, cfg.dstBase);
    LocatedInRam(cfg, cfg.ram, to);
    LocatedApart(cfg.writeMap, to, cfg.size);
    var p, data := Locate(cfg.writeMap, to, cfg.size).value, ReadElement(cfg, s).value;
    StoredByte(s.mem, p, data, i);
    if p.first <= i < p.first + p.inFirst {
      ByteAt(cfg.writeMap, to, cfg.size, i - p.first);
      assert Touches(cfg.writeMap, to, i - p.first, i);
    } else if p.second <= i < p.second + (cfg.size - p.inFirst) {
      ByteAt(cfg.writeMap, to, cfg.size, p.inFirst + (i - p.second));
      assert Touches(cfg.writeMap, to, p.inFirst + (i - p.second), i);
    }
  }

  /** Translating an element fails exactly if the page of some byte of it is
      missing, and then at the first such byte. */
  lemma MissingIsFirst(pages: map<nat, nat>, laddr: Word, size: nat, j: nat)
    requires 0 < size <= 4 && j <= size
    requires forall i: nat | i < j :: Mapped(pages, laddr, i)
    requires j < size ==> !Mapped(pages, laddr, j)
    ensures Missing(pages, laddr, size) == if j == size then None else Some((laddr + j) % WORD)
  {
    var page, off := laddr / PAGE, laddr % PAGE;
    PageOf(pages, laddr, page, off, 0);
    PageOf(pages, laddr, page, off, j);
    PageOf(pages, laddr, page, off, size - 1);
    if off + size > PAGE {
      PageOf(pages, laddr, page, off, PAGE - off);
    }
    assert j > 0 ==> Mapped(pages, laddr, 0);
    assert size - 1 < j ==> Mapped(pages, laddr, size - 1);
    assert 0 < j && PAGE - off < j ==> Mapped(pages, laddr, PAGE - off);
  }

  /** The source is translated before the destination; a fault names the first byte
      of the element that cannot be. `j` and `k` are how much of each can. */
  lemma FaultIsFirst(cfg: Config, s: State, from: Word, to: Word, j: nat, k: nat)
    requires cfg.Valid() && j <= cfg.size && k <= cfg.size
    requires from == (s.esi + cfg.srcBase) % WORD && to == (s.edi + cfg.dstBase) % WORD
    requires (forall i: nat | i < j :: Mapped(cfg.readMap, from, i)) && (j < cfg.size ==> !Mapped(cfg.readMap, from, j))
    requires (forall i: nat | i < k :: Mapped(cfg.writeMap, to, i)) && (k < cfg.size ==> !Mapped(cfg.writeMap, to, k))
    ensures
      FaultOf(cfg, s) ==
      if cfg.fill.None? && j < cfg.size then Some(Fault((from + j) % WORD, false))
      else if k < cfg.size then Some(Fault((to + k) % WORD, true))
      else None
  {
    hide Missing;
    assert from == Add(s.esi, cfg.srcBase) && to == Add(s.edi, cfg.dstBase);
    MissingIsFirst(cfg.readMap, from, cfg.size, j);
    MissingIsFirst(cfg.writeMap, to, cfg.size, k);
  }

  lemma PageOf(pages: map<nat, nat>, laddr: nat, page: nat, off: nat, j: nat)
    requires laddr == page * PAGE + off && off < PAGE && j <= 4
    ensures Mapped(pages, laddr, j) <==> (if off + j < PAGE then page else page + 1) in pages
  {
    assert laddr + j == page * PAGE + (off + j);
    assert off + j >= PAGE ==> laddr + j == (page + 1) * PAGE + (off + j - PAGE);
  }

  /** The state when the instruction ends, and the fault that ended it, if one did. */
  datatype Outcome = Outcome(state: State, fault: Option<Fault>)

  /** REP MOVS or REP STOS as the architecture defines it: one element after another. */
  function MoveAll(cfg: Config, s: State): Outcome
    requires cfg.Valid() && |s.mem| == cfg.ram
    decreases s.ecx
  {
    if s.ecx == 0 then Outcome(s, None)
    else
      var next := MoveOne(cfg, s);
      if next.None? then Outcome(s, FaultOf(cfg, s)) else MoveAll(cfg, next.value)
  }

  lemma MoveAllEnds(cfg: Config, s: State)
    requires cfg.Valid() && |s.mem| == cfg.ram
    ensures s.ecx == 0 ==> MoveAll(cfg, s) == Outcome(s, None)
    ensures s.ecx > 0 && MoveOne(cfg, s).None? ==> MoveAll(cfg, s) == Outcome(s, FaultOf(cfg, s))
  {
  }

  // ------------------------------------------------------- a chunk of a page

  /** `n` elements, `dir` bytes apart from offset `off` on, all lie in one page. */
  predicate InPage(off: int, dir: int, size: nat, n: nat)
    decreases n
  {
    n == 0 || (0 <= off && off + size <= PAGE && InPage(off + dir, dir, size, n - 1))
  }

  /** What is stored at one step: the fill element, or the bytes at `src`. */
  function Element(cfg: Config, mem: seq<Byte>, src: int): (d: seq<Byte>)
    requires cfg.Valid() && |mem| == cfg.ram && (cfg.fill.None? ==> 0 <= src <= src + cfg.size <= |mem|)
    ensures |d| == cfg.size
  {
    if cfg.fill.Some? then cfg.fill.value else mem[src..src + cfg.size]
  }

  predicate Rooms(cfg: Config, ram: nat, src: int, dst: int, n: nat) {
    Room(ram, dst, cfg.Dir(), cfg.size, n) && (cfg.fill.None? ==> Room(ram, src, cfg.Dir(), cfg.size, n))
  }

  /** Storing `n` elements within physical memory, in order. */
  function CopyN(cfg: Config, mem: seq<Byte>, src: int, dst: int, n: nat): (r: seq<Byte>)
    requires cfg.Valid() && |mem| == cfg.ram && Rooms(cfg, |mem|, src, dst, n)
    ensures |r| == |mem|
    decreases n
  {
    if n == 0 then mem
    else CopyN(cfg, Splice(mem, dst, Element(cfg, mem, src)), src + cfg.Dir(), dst + cfg.Dir(), n - 1)
  }

  /** `n` elements from physical address `at` on are in RAM. */
  predicate Room(ram: nat, at: int, dir: int, size: nat, n: nat)
    decreases n
  {
    n == 0 || (0 <= at && at + size <= ram && Room(ram, at + dir, dir, size, n - 1))
  }

  lemma {:induction false} PageHasRoom(ram: nat, frame: nat, off: int, dir: int, size: nat, n: nat)
    requires InPage(off, dir, size, n) && frame * PAGE + PAGE <= ram
    ensures Room(ram, frame * PAGE + off, dir, size, n)
    decreases n
  {
    if n > 0 {
      PageHasRoom(ram, frame, off + dir, dir, size, n - 1);
    }
  }

  function AddTimes(x: Word, d: int, n: nat): Word
    requires -4 <= d <= 4
    decreases n
  {
    if n == 0 then x else AddTimes(Add(x, d), d, n - 1)
  }

  /** Moving within the page keeps the page and moves the offset. */
  lemma AddInPage(x: Word, base: Word, dir: int)
    requires -4 <= dir <= 4
    ensures
      var off := Add(x, base) % PAGE;
      0 <= off + dir < PAGE ==>
        Add(Add(x, dir), base) == Add(x, base) + dir &&
        Add(Add(x, dir), base) / PAGE == Add(x, base) / PAGE &&
        Add(Add(x, dir), base) % PAGE == off + dir
  {
    var l := Add(x, base);
    if 0 <= l % PAGE + dir < PAGE {
      assert l / PAGE * PAGE + l % PAGE == l;
      assert 0 <= l + dir < WORD;
      AddCommutes(x, base, dir);
    }
  }

  lemma AddCommutes(x: Word, base: Word, dir: int)
    requires -4 <= dir <= 4
    ensures Add(Add(x, dir), base) == Add(Add(x, base), dir)
  {
  }

  lemma OneElementInPage(cfg: Config, s: State, src: int, dst: int)
    requires cfg.Valid() && |s.mem| == cfg.ram && s.ecx > 0
    requires At(cfg.writeMap, Add(s.edi, cfg.dstBase), dst)
    requires dst % PAGE + cfg.size <= PAGE && 0 <= dst <= dst + cfg.size <= |s.mem|
    requires cfg.fill.None? ==>
      && At(cfg.readMap, Add(s.esi, cfg.srcBase), src)
      && src % PAGE + cfg.size <= PAGE && 0 <= src <= src + cfg.size <= |s.mem|
    ensures MoveOne(cfg, s) == Some(FirstOfChunk(cfg, s, src, dst))
  {
    var size := cfg.size;
    var to := Place(dst, size, 0);
    var data := Element(cfg, s.mem, src);
    if cfg.fill.None? {
      assert LoadAt(s.mem, Place(src, size, 0), size) == data;
    }
    assert data[..size] == data && data[size..] == [];
    assert StoreAt(s.mem, to, data) == Splice(s.mem, dst, data);
  }

  /** The state after the first element of a chunk. */
  function FirstOfChunk(cfg: Config, s: State, src: int, dst: int): State
    requires cfg.Valid() && |s.mem| == cfg.ram && s.ecx > 0
    requires cfg.fill.None? ==> 0 <= src <= src + cfg.size <= |s.mem|
    requires 0 <= dst <= dst + cfg.size <= |s.mem|
  {
    State(Splice(s.mem, dst, Element(cfg, s.mem, src)), Add(s.esi, cfg.SrcDir()), Add(s.edi, cfg.Dir()), s.ecx - 1)
  }

  /** Linear address `laddr` is physical address `at`. */
  predicate At(pages: map<nat, nat>, laddr: Word, at: int) {
    laddr / PAGE in pages && at == pages[laddr / PAGE] * PAGE + laddr % PAGE
  }

  lemma AtOffset(pages: map<nat, nat>, laddr: Word, at: int)
    requires At(pages, laddr, at)
    ensures at % PAGE == laddr % PAGE
  {
  }

  lemma NextAt(pages: map<nat, nat>, x: Word, base: Word, dir: int, at: int)
    requires -4 <= dir <= 4 && At(pages, Add(x, base), at)
    requires 0 <= at % PAGE + dir < PAGE
    ensures At(pages, Add(Add(x, dir), base), at + dir) && (at + dir) % PAGE == at % PAGE + dir
  {
    AtOffset(pages, Add(x, base), at);
    AddInPage(x, base, dir);
    AtOffset(pages, Add(Add(x, dir), base), at + dir);
  }

  /** After `n` elements within one source and one destination page. */
  function AfterChunk(cfg: Config, s: State, src: int, dst: int, n: nat): State
    requires cfg.Valid() && |s.mem| == cfg.ram && n <= s.ecx && Rooms(cfg, |s.mem|, src, dst, n)
  {
    State(CopyN(cfg, s.mem, src, dst, n),
          AddTimes(s.esi, cfg.SrcDir(), n), AddTimes(s.edi, cfg.Dir(), n), s.ecx - n)
  }

  /** The addresses of a chunk, with room for it in both pages. */
  predicate ChunkFits(cfg: Config, s: State, src: int, dst: int, n: nat)
    requires cfg.Valid() && |s.mem| == cfg.ram
  {
    n > 0 ==>
      && n <= s.ecx
      && At(cfg.writeMap, Add(s.edi, cfg.dstBase), dst) && InPage(dst % PAGE, cfg.Dir(), cfg.size, n)
      && (cfg.fill.None? ==>
            At(cfg.readMap, Add(s.esi, cfg.srcBase), src) && InPage(src % PAGE, cfg.Dir(), cfg.size, n))
  }

  lemma ChunkHasRoom(cfg: Config, s: State, src: int, dst: int, n: nat)
    requires cfg.Valid() && |s.mem| == cfg.ram && ChunkFits(cfg, s, src, dst, n)
    ensures Rooms(cfg, |s.mem|, src, dst, n)
  {
    if n > 0 {
      var l, m := Add(s.esi, cfg.srcBase), Add(s.edi, cfg.dstBase);
      AtOffset(cfg.writeMap, m, dst);
      PageHasRoom(|s.mem|, cfg.writeMap[m / PAGE], m % PAGE, cfg.Dir(), cfg.size, n);
      if cfg.fill.None? {
        AtOffset(cfg.readMap, l, src);
        PageHasRoom(|s.mem|, cfg.readMap[l / PAGE], l % PAGE, cfg.Dir(), cfg.size, n);
      }
    }
  }

  lemma InPageNext(off: int, dir: int, size: nat, n: nat)
    requires n > 1 && size > 0 && InPage(off, dir, size, n)
    ensures 0 <= off + dir < PAGE && InPage(off + dir, dir, size, n - 1)
  {
  }

  lemma FirstIsElement(cfg: Config, s: State, src: int, dst: int, n: nat)
    requires cfg.Valid() && |s.mem| == cfg.ram && ChunkFits(cfg, s, src, dst, n) && n > 0 && Rooms(cfg, |s.mem|, src, dst, n)
    ensures MoveAll(cfg, s) == MoveAll(cfg, FirstOfChunk(cfg, s, src, dst))
  {
    OneElementInPage(cfg, s, src, dst);
  }

  lemma RestFits(cfg: Config, s: State, src: int, dst: int, n: nat)
    requires cfg.Valid() && |s.mem| == cfg.ram && ChunkFits(cfg, s, src, dst, n) && n > 0 && Rooms(cfg, |s.mem|, src, dst, n)
    ensures ChunkFits(cfg, FirstOfChunk(cfg, s, src, dst), src + cfg.Dir(), dst + cfg.Dir(), n - 1)
  {
    if n > 1 {
      InPageNext(dst % PAGE, cfg.Dir(), cfg.size, n);
      NextAt(cfg.writeMap, s.edi, cfg.dstBase, cfg.Dir(), dst);
      if cfg.fill.None? {
        InPageNext(src % PAGE, cfg.Dir(), cfg.size, n);
        NextAt(cfg.readMap, s.esi, cfg.srcBase, cfg.Dir(), src);
      }
    }
  }

  lemma RoomsNext(cfg: Config, ram: nat, src: int, dst: int, n: nat)
    requires n > 0 && Rooms(cfg, ram, src, dst, n)
    ensures Rooms(cfg, ram, src + cfg.Dir(), dst + cfg.Dir(), n - 1)
    ensures 0 <= dst <= dst + cfg.size <= ram && (cfg.fill.None? ==> 0 <= src <= src + cfg.size <= ram)
  {
  }

  lemma CopyNNext(cfg: Config, mem: seq<Byte>, src: int, dst: int, n: nat)
    requires cfg.Valid() && |mem| == cfg.ram && n > 0 && Rooms(cfg, |mem|, src, dst, n)
    requires Rooms(cfg, |mem|, src + cfg.Dir(), dst + cfg.Dir(), n - 1)
    requires 0 <= dst <= dst + cfg.size <= |mem| && (cfg.fill.None? ==> 0 <= src <= src + cfg.size <= |mem|)
    ensures CopyN(cfg, mem, src, dst, n)
         == CopyN(cfg, Splice(mem, dst, Element(cfg, mem, src)), src + cfg.Dir(), dst + cfg.Dir(), n - 1)
  {
  }

  lemma AfterFirst(cfg: Config, s: State, src: int, dst: int, n: nat, s1: State)
    requires cfg.Valid() && |s.mem| == cfg.ram && 0 < n <= s.ecx && Rooms(cfg, |s.mem|, src, dst, n)
    requires 0 <= dst <= dst + cfg.size <= |s.mem| && (cfg.fill.None? ==> 0 <= src <= src + cfg.size <= |s.mem|)
    requires s1 == FirstOfChunk(cfg, s, src, dst)
    ensures |s1.mem| == cfg.ram && n - 1 <= s1.ecx && Rooms(cfg, |s1.mem|, src + cfg.Dir(), dst + cfg.Dir(), n - 1)
    ensures AfterChunk(cfg, s, src, dst, n) == AfterChunk(cfg, s1, src + cfg.Dir(), dst + cfg.Dir(), n - 1)
  {
    RoomsNext(cfg, |s.mem|, src, dst, n);
  }

  lemma ChunkStep(cfg: Config, s: State, src: int, dst: int, n: nat) returns (s1: State)
    requires cfg.Valid() && |s.mem| == cfg.ram && 0 < n <= s.ecx && ChunkFits(cfg, s, src, dst, n)
    requires Rooms(cfg, |s.mem|, src, dst, n)
    ensures |s1.mem| == cfg.ram && n - 1 <= s1.ecx && MoveAll(cfg, s) == MoveAll(cfg, s1)
    ensures ChunkFits(cfg, s1, src + cfg.Dir(), dst + cfg.Dir(), n - 1)
    ensures Rooms(cfg, |s1.mem|, src + cfg.Dir(), dst + cfg.Dir(), n - 1)
    ensures AfterChunk(cfg, s, src, dst, n) == AfterChunk(cfg, s1, src + cfg.Dir(), dst + cfg.Dir(), n - 1)
  {
    RoomsNext(cfg, |s.mem|, src, dst, n);
    s1 := FirstOfChunk(cfg, s, src, dst);
    FirstIsElement(cfg, s, src, dst, n);
    RestFits(cfg, s, src, dst, n);
    AfterFirst(cfg, s, src, dst, n, s1);
  }

  /** A chunk copied in physical memory is that many single elements. */
  lemma {:induction false} ChunkIsElements(cfg: Config, s: State, src: int, dst: int, n: nat, end: State)
    requires cfg.Valid() && |s.mem| == cfg.ram && n <= s.ecx && ChunkFits(cfg, s, src, dst, n)
    requires Rooms(cfg, |s.mem|, src, dst, n) && end == AfterChunk(cfg, s, src, dst, n)
    ensures |end.mem| == cfg.ram && MoveAll(cfg, s) == MoveAll(cfg, end)
    decreases n
  {
    hide ChunkFits;
    if n > 0 {
      var s1 := ChunkStep(cfg, s, src, dst, n);
      ChunkIsElements(cfg, s1, src + cfg.Dir(), dst + cfg.Dir(), n - 1, end);
    }
  }

  // ------------------------------------------------------ in bulk, upwards

  function Repeat(d: seq<Byte>, n: nat): (r: seq<Byte>)
    ensures |r| == n * |d|
  {
    if n == 0 then [] else d + Repeat(d, n - 1)
  }

  /** The bytes a bulk copy or fill of `n` elements leaves at the destination. */
  function BulkData(cfg: Config, mem: seq<Byte>, src: int, n: nat): (d: seq<Byte>)
    requires cfg.Valid() && |mem| == cfg.ram && (cfg.fill.None? ==> 0 <= src <= src + n * cfg.size <= |mem|)
    ensures |d| == n * cfg.size
  {
    if cfg.fill.Some? then Repeat(cfg.fill.value, n) else mem[src..src + n * cfg.size]
  }

  /** The guard of the memmove path: storing upwards does not overwrite source
      elements still to be read. */
  predicate BulkAllowed(cfg: Config, src: int, dst: int, n: nat) {
    !cfg.down && (cfg.fill.None? ==> dst <= src || dst >= src + n * cfg.size)
  }

  lemma {:induction false} RoomIsRange(ram: nat, at: int, size: nat, n: nat)
    requires size > 0 && Room(ram, at, size, size, n) && n > 0
    ensures 0 <= at && at + n * size <= ram
    decreases n
  {
    assert n * size == size + (n - 1) * size;
    if n > 1 {
      RoomIsRange(ram, at + size, size, n - 1);
    }
  }

  lemma SpliceTwice(mem: seq<Byte>, at: nat, d: seq<Byte>, e: seq<Byte>)
    requires at + |d| + |e| <= |mem|
    ensures Splice(Splice(mem, at, d), at + |d|, e) == Splice(mem, at, d + e)
  {
  }

  lemma SourceSurvives(mem: seq<Byte>, src: nat, dst: nat, size: nat, len: nat)
    requires src + len <= |mem| && dst + size <= |mem| && size <= len
    requires dst <= src || dst >= src + len
    ensures Splice(mem, dst, mem[src..src + size])[src + size..src + len] == mem[src + size..src + len]
  {
  }

  lemma BulkInRam(cfg: Config, ram: nat, src: int, dst: int, n: nat)
    requires cfg.Valid() && ram == cfg.ram && !cfg.down && Rooms(cfg, ram, src, dst, n) && n > 0
    ensures 0 <= dst <= dst + n * cfg.size <= ram && (cfg.fill.None? ==> 0 <= src <= src + n * cfg.size <= ram)
  {
    RoomIsRange(ram, dst, cfg.size, n);
    if cfg.fill.None? {
      RoomIsRange(ram, src, cfg.size, n);
    }
  }

  lemma BulkDataJoins(cfg: Config, mem: seq<Byte>, src: int, dst: int, n: nat)
    requires cfg.Valid() && |mem| == cfg.ram && BulkAllowed(cfg, src, dst, n) && n > 1
    requires n * cfg.size == cfg.size + (n - 1) * cfg.size
    requires 0 <= dst <= dst + n * cfg.size <= |mem| && (cfg.fill.None? ==> 0 <= src <= src + n * cfg.size <= |mem|)
    ensures
      var mem1 := Splice(mem, dst, Element(cfg, mem, src));
      Element(cfg, mem, src) + BulkData(cfg, mem1, src + cfg.size, n - 1) == BulkData(cfg, mem, src, n)
  {
    hide Rooms;
    if cfg.fill.None? {
      SourceSurvives(mem, src, dst, cfg.size, n * cfg.size);
      SlicesJoin(mem, src, src + cfg.size, src + n * cfg.size);
    }
  }

  lemma SlicesJoin(mem: seq<Byte>, a: nat, b: nat, c: nat)
    requires a <= b <= c <= |mem|
    ensures mem[a..b] + mem[b..c] == mem[a..c]
  {
  }

  /** The first element, then the rest in bulk, is all of it in bulk. */
  lemma BulkJoins(cfg: Config, mem: seq<Byte>, src: int, dst: int, n: nat)
    requires cfg.Valid() && |mem| == cfg.ram && BulkAllowed(cfg, src, dst, n) && n > 1
    requires 0 <= dst <= dst + n * cfg.size <= |mem| && (cfg.fill.None? ==> 0 <= src <= src + n * cfg.size <= |mem|)
    ensures n * cfg.size == cfg.size + (n - 1) * cfg.size
    ensures
      var mem1 := Splice(mem, dst, Element(cfg, mem, src));
      Splice(mem1, dst + cfg.size, BulkData(cfg, mem1, src + cfg.size, n - 1)) == Splice(mem, dst, BulkData(cfg, mem, src, n))
  {
    assert n * cfg.size == cfg.size + (n - 1) * cfg.size;
    var d := Element(cfg, mem, src);
    var mem1 := Splice(mem, dst, d);
    BulkDataJoins(cfg, mem, src, dst, n);
    SpliceTwice(mem, dst, d, BulkData(cfg, mem1, src + cfg.size, n - 1));
  }

  lemma BulkOfOne(cfg: Config, mem: seq<Byte>, src: int)
    requires cfg.Valid() && |mem| == cfg.ram && (cfg.fill.None? ==> 0 <= src <= src + cfg.size <= |mem|)
    ensures BulkData(cfg, mem, src, 1) == Element(cfg, mem, src)
  {
    if cfg.fill.Some? {
      assert Repeat(cfg.fill.value, 1) == cfg.fill.value + Repeat(cfg.fill.value, 0);
    }
  }

  /** Under its guard the bulk path equals storing the elements in order. */
  lemma {:induction false} BulkIsElements(cfg: Config, mem: seq<Byte>, src: int, dst: int, n: nat)
    requires cfg.Valid() && |mem| == cfg.ram && Rooms(cfg, |mem|, src, dst, n) && n > 0
    requires BulkAllowed(cfg, src, dst, n)
    requires 0 <= dst <= dst + n * cfg.size <= |mem| && (cfg.fill.None? ==> 0 <= src <= src + n * cfg.size <= |mem|)
    ensures CopyN(cfg, mem, src, dst, n) == Splice(mem, dst, BulkData(cfg, mem, src, n))
    decreases n
  {
    hide Repeat;
    var mem1 := Splice(mem, dst, Element(cfg, mem, src));
    if n > 1 {
      BulkJoins(cfg, mem, src, dst, n);
      BulkInRam(cfg, |mem|, src + cfg.size, dst + cfg.size, n - 1);
      BulkIsElements(cfg, mem1, src + cfg.size, dst + cfg.size, n - 1);
    } else {
      assert CopyN(cfg, mem1, src + cfg.size, dst + cfg.size, 0) == mem1;
      BulkOfOne(cfg, mem, src);
    }
  }

  // ------------------------------------------------------- the size of a chunk

  lemma {:induction false} UpFits(off: int, size: nat, n: nat)
    requires 0 <= off && off + n * size <= PAGE && size > 0
    ensures InPage(off, size, size, n)
    decreases n
  {
    if n > 0 {
      assert n * size == size + (n - 1) * size;
      UpFits(off + size, size, n - 1);
    }
  }

  lemma {:induction false} DownFits(off: int, size: nat, n: nat)
    requires n > 0 ==> off + size <= PAGE && off - (n - 1) * size >= 0
    requires size > 0
    ensures InPage(off, 0 - size, size, n)
    decreases n
  {
    if n > 1 {
      assert (n - 1) * size == size + (n - 2) * size;
      DownFits(off - size, size, n - 1);
    }
  }

  /** How many elements the helper takes from a page at once. */
  function PageCount(cfg: Config, at: nat): nat
    requires cfg.size > 0
  {
    if cfg.down then 1 + at % PAGE / cfg.size else (PAGE - at % PAGE) / cfg.size
  }

  /** An address aligned to the element size is so within its page. */
  lemma AlignedInPage(at: nat, size: nat)
    requires (size == 1 || size == 2 || size == 4) && at % size == 0
    ensures at % PAGE % size == 0 && at % PAGE + size <= PAGE
  {
    if size == 2 {
      assert (at % PAGE + 2 * (2048 * (at / PAGE))) % 2 == at % PAGE % 2;
    } else if size == 4 {
      assert (at % PAGE + 4 * (1024 * (at / PAGE))) % 4 == at % PAGE % 4;
    }
  }

  lemma PageCountFits(cfg: Config, at: nat, n: nat)
    requires cfg.size == 1 || cfg.size == 2 || cfg.size == 4
    requires at % cfg.size == 0 && n <= PageCount(cfg, at)
    ensures InPage(at % PAGE, cfg.Dir(), cfg.size, n)
    ensures PageCount(cfg, at) > 0
  {
    var off, size := at % PAGE, cfg.size;
    AlignedInPage(at, size);
    if cfg.down {
      assert off == off / size * size;
      assert n > 0 ==> (n - 1) * size <= off / size * size;
      DownFits(off, size, n);
    } else {
      var room := (PAGE - off) / size;
      assert room * size <= PAGE - off;
      assert n * size <= room * size;
      UpFits(off, size, n);
    }
  }

  // ------------------------------------------------------------ the CPU's state

  /** How one execution of the instruction ends: finished; stopped after a slice,
      to be executed again; or stopped by a page fault. */
  datatype Status = Finished | Yielded | Faulted

  class StringUnit {
    const cfg: Config
    const mem: array<Byte>
    var esi: Word
    var edi: Word
    var ecx: Word
    /** The last fault, as the CPU reports it. */
    var fault: Option<Fault>

    constructor (cfg: Config, mem: array<Byte>, esi: Word, edi: Word, ecx: Word)
      requires cfg.Valid() && mem.Length == cfg.ram
      ensures Valid() && Abs() == State(mem[..], esi, edi, ecx)
      ensures this.cfg == cfg && this.mem == mem
    {
      this.cfg, this.mem, this.esi, this.edi, this.ecx, fault := cfg, mem, esi, edi, ecx, None;
    }

    ghost predicate Valid() {
      cfg.Valid() && mem.Length == cfg.ram
    }

    ghost function Abs(): State
      reads this, mem
    {
      State(mem[..], esi, edi, ecx)
    }

    /** Stores bytes at a physical address. */
    method Store(at: nat, data: seq<Byte>)
      requires at + |data| <= mem.Length
      modifies mem
      ensures mem[..] == Splice(old(mem[..]), at, data)
    {
      forall i | 0 <= i < |data| {
        mem[at + i] := data[i];
      }
    }

    method Limit(count: nat) returns (limited: nat)
      requires cfg.Valid()
      ensures limited <= count && (count > 0 ==> limited > 0) && (!cfg.givesWay ==> limited == count)
    {
      limited := if cfg.givesWay && count > cfg.slice then cfg.slice else count;
    }

    /** Where an element lies, or None and the fault. */
    method Translate(writing: bool) returns (p: Option<Place>)
      requires Valid()
      modifies this`fault
      ensures p == if writing then Locate(cfg.writeMap, Add(edi, cfg.dstBase), cfg.size) else Locate(cfg.readMap, Add(esi, cfg.srcBase), cfg.size)
      ensures p.None? && writing && (cfg.fill.None? ==> Locate(cfg.readMap, Add(esi, cfg.srcBase), cfg.size).Some?) ==> fault == FaultOf(cfg, Abs())
      ensures p.None? && !writing && cfg.fill.None? ==> fault == FaultOf(cfg, Abs())
    {
      var pages, laddr := if writing then cfg.writeMap else cfg.readMap, if writing then Add(edi, cfg.dstBase) else Add(esi, cfg.srcBase);
      p := Locate(pages, laddr, cfg.size);
      if p.None? {
        fault := Some(Fault(Missing(pages, laddr, cfg.size).value, writing));
      }
    }

    /** The element to store, or None on a page fault. */
    method Read() returns (data: Option<seq<Byte>>)
      requires Valid()
      modifies this`fault
      ensures data == ReadElement(cfg, Abs())
      ensures data.None? ==> fault == FaultOf(cfg, Abs())
    {
      if cfg.fill.Some? {
        return cfg.fill;
      }
      var from := Translate(false);
      LocatedInRam(cfg, cfg.ram, Add(esi, cfg.srcBase));
      if from.None? {
        return None;
      }
      var p := from.value;
      data := Some(mem[p.first..p.first + p.inFirst] + mem[p.second..p.second + (cfg.size - p.inFirst)]);
    }

    method StoreIn(p: Place, data: seq<Byte>)
      requires InRam(p, |data|, mem.Length)
      modifies mem
      ensures mem[..] == StoreAt(old(mem[..]), p, data)
    {
      Store(p.first, data[..p.inFirst]);
      Store(p.second, data[p.inFirst..]);
    }

    /** One element, as the unrepeated instruction does it. */
    method StepOne() returns (ok: bool)
      requires Valid() && ecx > 0
      modifies this, mem
      ensures ok ==> MoveOne(cfg, old(Abs())) == Some(Abs())
      ensures !ok ==> MoveOne(cfg, old(Abs())).None? && Abs() == old(Abs()) && fault == FaultOf(cfg, Abs())
    {
      hide StoreAt, Locate;
      var data := Read();
      if data.None? {
        return false;
      }
      var to := Translate(true);
      LocatedInRam(cfg, cfg.ram, Add(edi, cfg.dstBase));
      if to.None? {
        return false;
      }
      StoreIn(to.value, data.value);
      esi := Add(esi, cfg.SrcDir());
      edi := Add(edi, cfg.Dir());
      ecx := ecx - 1;
      ok := true;
    }

    /** The slow path: `count` elements one at a time. */
    method StepMany(count: nat) returns (ok: bool)
      requires Valid() && count <= ecx
      modifies this, mem
      ensures MoveAll(cfg, Abs()) == MoveAll(cfg, old(Abs()))
      ensures ok ==> ecx == old(ecx) - count
      ensures !ok ==> ecx > 0 && MoveOne(cfg, Abs()).None? && ecx <= old(ecx) && fault == FaultOf(cfg, Abs())
    {
      var left: nat := count;
      while left > 0
        invariant left <= count && ecx == old(ecx) - (count - left)
        invariant MoveAll(cfg, Abs()) == MoveAll(cfg, old(Abs()))
      {
        ok := StepOne();
        if !ok {
          return;
        }
        left := left - 1;
      }
      ok := true;
    }

    /** The next of the `left` elements still to be stored. */
    method StoreElement(src: int, dst: int, left: nat, ghost goal: seq<Byte>) returns (src': int, dst': int, left': nat)
      requires Valid() && left > 0 && Rooms(cfg, mem.Length, src, dst, left)
      requires CopyN(cfg, mem[..], src, dst, left) == goal
      modifies mem
      ensures left' == left - 1 && Rooms(cfg, mem.Length, src', dst', left')
      ensures CopyN(cfg, mem[..], src', dst', left') == goal
    {
      hide CopyN;
      RoomsNext(cfg, mem.Length, src, dst, left);
      CopyNNext(cfg, mem[..], src, dst, left);
      var data := if cfg.fill.Some? then cfg.fill.value else mem[src..src + cfg.size];
      assert data == Element(cfg, mem[..], src);
      Store(dst, data);
      src', dst', left' := src + cfg.Dir(), dst + cfg.Dir(), left - 1;
    }

    /** The elements of a chunk one after another in physical memory. */
    method StoreElements(src: int, dst: int, count: nat)
      requires Valid() && Rooms(cfg, mem.Length, src, dst, count)
      modifies mem
      ensures mem[..] == CopyN(cfg, old(mem[..]), src, dst, count)
    {
      var from, to := src, dst;
      var left: nat := count;
      ghost var goal := CopyN(cfg, mem[..], src, dst, count);
      while left > 0
        invariant left <= count && Rooms(cfg, mem.Length, from, to, left)
        invariant CopyN(cfg, mem[..], from, to, left) == goal
      {
        from, to, left := StoreElement(from, to, left, goal);
      }
    }

    /** memmove or the bulk fill: the bytes all at once. */
    method StoreBulk(src: int, dst: int, count: nat)
      requires Valid() && Rooms(cfg, mem.Length, src, dst, count) && count > 0
      requires BulkAllowed(cfg, src, dst, count)
      modifies mem
      ensures mem[..] == CopyN(cfg, old(mem[..]), src, dst, count)
    {
      BulkInRam(cfg, mem.Length, src, dst, count);
      BulkIsElements(cfg, mem[..], src, dst, count);
      var data := if cfg.fill.Some? then Repeat(cfg.fill.value, count) else mem[src..src + count * cfg.size];
      Store(dst, data);
    }

    /** In bulk where that is allowed, else element by element. */
    method StoreInPages(src: int, dst: int, count: nat)
      requires Valid() && Rooms(cfg, mem.Length, src, dst, count) && count > 0
      modifies mem
      ensures mem[..] == CopyN(cfg, old(mem[..]), src, dst, count)
    {
      if cfg.bulk && BulkAllowed(cfg, src, dst, count) {
        StoreBulk(src, dst, count);
      } else {
        StoreElements(src, dst, count);
      }
    }

    /** The registers, moved past `count` elements at once. */
    method Advance(count: nat)
      requires Valid() && count <= ecx
      modifies this
      ensures esi == AddTimes(old(esi), cfg.SrcDir(), count)
      ensures edi == AddTimes(old(edi), cfg.Dir(), count)
      ensures ecx == old(ecx) - count
    {
      AddTimesIsProduct(esi, cfg.SrcDir(), count);
      AddTimesIsProduct(edi, cfg.Dir(), count);
      esi := (esi + count * cfg.SrcDir()) % WORD;
      edi := (edi + count * cfg.Dir()) % WORD;
      ecx := ecx - count;
    }

    /** One chunk: `count` elements that fit in a source and a destination page. */
    method StoreChunk(src: nat, dst: nat, count: nat)
      requires Valid() && 0 < count <= ecx && ChunkFits(cfg, Abs(), src, dst, count)
      modifies this, mem
      ensures MoveAll(cfg, Abs()) == MoveAll(cfg, old(Abs()))
      ensures ecx == old(ecx) - count
    {
      ghost var s := Abs();
      ChunkHasRoom(cfg, s, src, dst, count);
      ghost var end := AfterChunk(cfg, s, src, dst, count);
      ChunkIsElements(cfg, s, src, dst, count, end);
      StoreInPages(src, dst, count);
      Advance(count);
      assert Abs() == end;
    }

    /** How many elements the next chunk takes: no more than either page holds. */
    method ChunkCount(src: nat, dst: nat) returns (count: nat)
      requires Valid() && ecx > 0
      requires dst % cfg.size == 0 && (cfg.fill.None? ==> src % cfg.size == 0)
      ensures 0 < count <= ecx
      ensures InPage(dst % PAGE, cfg.Dir(), cfg.size, count)
      ensures cfg.fill.None? ==> InPage(src % PAGE, cfg.Dir(), cfg.size, count)
    {
      count := ecx;
      PageCountFits(cfg, dst, 0);
      if cfg.fill.None? {
        PageCountFits(cfg, src, 0);
        if PageCount(cfg, src) < count {
          count := PageCount(cfg, src);
        }
      }
      if PageCount(cfg, dst) < count {
        count := PageCount(cfg, dst);
      }
      count := Limit(count);
      PageCountFits(cfg, dst, count);
      if cfg.fill.None? {
        PageCountFits(cfg, src, count);
      }
    }

    /** REP MOVS or REP STOS, once through the helper. */
    method Execute() returns (status: Status)
      requires Valid()
      modifies this, mem
      ensures MoveAll(cfg, Abs()) == MoveAll(cfg, old(Abs()))
      ensures ecx <= old(ecx)
      ensures status.Finished? ==> ecx == 0
      ensures status.Yielded? ==> 0 < ecx < old(ecx)
      ensures status.Faulted? ==> ecx > 0 && MoveOne(cfg, Abs()).None? && fault == FaultOf(cfg, Abs())
    {
      while ecx > 0
        invariant ecx <= old(ecx)
        invariant MoveAll(cfg, Abs()) == MoveAll(cfg, old(Abs()))
        decreases ecx
      {
        var from := None;
        if cfg.fill.None? {
          from := Translate(false);
          if from.None? {
            return Faulted;
          }
        }
        var to := Translate(true);
        if to.None? {
          return Faulted;
        }
        var src := if cfg.fill.None? then from.value.first else 0;
        var dst := to.value.first;
        if dst % cfg.size != 0 || src % cfg.size != 0 {
          var count := Limit(ecx);
          var ok := StepMany(count);
          if !ok {
            return Faulted;
          }
        } else {
          var count := ChunkCount(src, dst);
          StoreChunk(src, dst, count);
        }
        if cfg.givesWay && ecx > 0 {
          return Yielded;
        }
      }
      status := Finished;
    }

    /** The instruction, executed again after every slice until it is done. */
    method ExecuteAll() returns (faulted: bool)
      requires Valid()
      modifies this, mem
      ensures MoveAll(cfg, old(Abs())) == Outcome(Abs(), if faulted then fault else None)
    {
      var status := Execute();
      while status.Yielded?
        invariant MoveAll(cfg, Abs()) == MoveAll(cfg, old(Abs()))
        invariant status.Finished? ==> ecx == 0
        invariant status.Faulted? ==> ecx > 0 && MoveOne(cfg, Abs()).None? && fault == FaultOf(cfg, Abs())
        decreases ecx, if status.Yielded? then 1 else 0
      {
        status := Execute();
      }
      MoveAllEnds(cfg, Abs());
      faulted := status.Faulted?;
    }
  }

  lemma ModWraps(y: int)
    ensures (y + WORD) % WORD == y % WORD && (y - WORD) % WORD == y % WORD
  {
  }

  /** Stepping `n` times adds `n` steps, modulo 2^32. */
  lemma {:induction false} AddTimesIsProduct(x: Word, d: int, n: nat)
    requires -4 <= d <= 4
    ensures AddTimes(x, d, n) == (x + n * d) % WORD
    decreases n
  {
    if n > 0 {
      AddTimesIsProduct(Add(x, d), d, n - 1);
      assert n * d == d + (n - 1) * d;
      ModWraps(x + n * d);
    }
  }
}
