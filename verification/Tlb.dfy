/** Address translation: a direct-mapped TLB with a second layer of
    read and write slots in front of it, against the page walk they stand
    for.

    Page structures are kept as 4-byte entries, so an entry's index is its
    physical address divided by four. */
module Tlb {

  type Page = p: nat | p < 0x10_0000

  type Offset = o: nat | o < 0x1000

  /** One directory or table entry; `rest` holds the bits nothing here looks at. */
  datatype Pte = Pte(frame: Page, present: bool, writable: bool, user: bool, accessed: bool, dirty: bool, rest: nat)

  /** What a walk finds: where the page is, the rights both levels grant, and
      the index of the table entry. */
  datatype Mapping = Mapping(frame: Page, writable: bool, user: bool, ppte: nat)

  datatype Option<T> = None | Some(value: T)

  function PdeIndex(root: Page, lpgno: Page): nat {
    root * 1024 + lpgno / 1024
  }

  /** The directory and every table it names lie in memory. */
  ghost predicate Placed(mem: seq<Pte>, root: Page) {
    && root * 1024 + 1024 <= |mem|
    && forall i :: root * 1024 <= i < root * 1024 + 1024 && mem[i].present ==> mem[i].frame * 1024 + 1024 <= |mem|
  }

  /** The two-level walk with combined rights (Intel SDM volume 3A, section 4.3). */
  ghost function Walk(mem: seq<Pte>, root: Page, lpgno: Page): (m: Option<Mapping>)
    requires Placed(mem, root)
    ensures m.Some? ==> m.value.ppte < |mem|
  {
    var pde := mem[PdeIndex(root, lpgno)];
    if !pde.present then None
    else
      var a := pde.frame * 1024 + lpgno % 1024;
      var pte := mem[a];
      if !pte.present then None
      else Some(Mapping(pte.frame, pde.writable && pte.writable, pde.user && pte.user, a))
  }

  /** Whether an access is refused (Intel SDM volume 3A, section 4.6): user mode
      needs the user right, and the write right to write; supervisor mode needs
      the write right only to write while CR0.WP is set. */
  predicate Denied(wp: bool, userMode: bool, write: bool, writable: bool, user: bool) {
    if userMode then !user || (write && !writable) else write && wp && !writable
  }

  /** The lookup table of the interpreter: [wp][user and write right][user mode][write]. */
  const PTE_LOOKUP: seq<seq<seq<seq<bool>>>> := [
    [ [[false, false], [true, true]],
      [[false, false], [true, true]],
      [[false, false], [false, true]],
      [[false, false], [false, false]] ],
    [ [[false, true], [true, true]],
      [[false, false], [true, true]],
      [[false, true], [false, true]],
      [[false, false], [false, false]] ]
  ]

  function Index(b: bool): nat {
    if b then 1 else 0
  }

  function LookupRow(wp: bool, writable: bool, user: bool): seq<seq<bool>> {
    PTE_LOOKUP[Index(wp)][2 * Index(user) + Index(writable)]
  }

  lemma LookupIsDenied(wp: bool, writable: bool, user: bool, userMode: bool, write: bool)
    ensures
      var row := LookupRow(wp, writable, user);
      |row| == 2 && |row[Index(userMode)]| == 2 &&
      row[Index(userMode)][Index(write)] == Denied(wp, userMode, write, writable, user)
  {
  }

  // -------------------------------------------------------------- addresses

  /** Exclusive-or, from the lowest bit up. */
  function Xor(a: nat, b: nat): nat
    decreases a + b
  {
    if a == 0 then b
    else if b == 0 then a
    else (if a % 2 == b % 2 then 0 else 1) + 2 * Xor(a / 2, b / 2)
  }

  function Shl(a: nat, k: nat): nat {
    if k == 0 then a else 2 * Shl(a, k - 1)
  }

  lemma XorOfDoubles(a: nat, b: nat, d: nat, e: nat)
    requires d < 2 && e < 2
    ensures Xor(2 * a + d, 2 * b + e) == (if d == e then 0 else 1) + 2 * Xor(a, b)
  {
    assert (2 * a + d) / 2 == a && (2 * b + e) / 2 == b;
    if 2 * a + d == 0 || 2 * b + e == 0 {
      assert Xor(a, 0) == a && Xor(0, b) == b;
    }
  }

  lemma {:induction false} XorCancels(a: nat, b: nat)
    ensures Xor(Xor(a, b), b) == a
    decreases a + b
  {
    if a == 0 {
      XorWithSelf(b);
    } else if b > 0 {
      var d := if a % 2 == b % 2 then 0 else 1;
      XorOfDoubles(Xor(a / 2, b / 2), b / 2, d, b % 2);
      XorCancels(a / 2, b / 2);
    }
  }

  lemma {:induction false} XorWithSelf(b: nat)
    ensures Xor(b, b) == 0
  {
    if b > 0 {
      XorWithSelf(b / 2);
    }
  }

  /** Low bits that only one operand has pass through. */
  lemma {:induction false} XorAbove(a: nat, b: nat, off: nat, k: nat)
    requires off < Shl(1, k)
    ensures Xor(Shl(a, k), Shl(b, k) + off) == Shl(Xor(a, b), k) + off
  {
    if k > 0 {
      XorAbove(a, b, off / 2, k - 1);
      XorOfDoubles(Shl(a, k - 1), Shl(b, k - 1) + off / 2, 0, off % 2);
    }
  }

  function LinearAddress(lpgno: Page, off: Offset): nat {
    Shl(lpgno, 12) + off
  }

  function PhysicalAddress(frame: Page, off: Offset): nat {
    Shl(frame, 12) + off
  }

  /** What an entry stores to turn a linear address into a physical one. */
  function Xaddr(frame: Page, lpgno: Page): nat {
    Xor(Shl(frame, 12), Shl(lpgno, 12))
  }

  /** Exclusive-or with the stored value swaps the page and keeps the offset. */
  lemma XaddrTranslates(frame: Page, lpgno: Page, off: Offset)
    ensures Xor(Xaddr(frame, lpgno), LinearAddress(lpgno, off)) == PhysicalAddress(frame, off)
  {
    assert Shl(1, 12) == 0x1000;
    XorAbove(frame, lpgno, 0, 12);
    XorAbove(Xor(frame, lpgno), lpgno, off, 12);
    XorCancels(frame, lpgno);
  }

  // ----------------------------------------------------------------- answers

  /** An access: a read (`rwm` 1), a write (2) or a read for modification (3). */
  datatype Access = Access(rwm: nat, lpgno: Page, off: Offset, userMode: bool)
  {
    predicate Valid() {
      1 <= rwm <= 3
    }

    predicate Write() {
      rwm > 1
    }
  }

  /** The physical address, or a page fault with its error code and CR2. */
  datatype Answer = Physical(addr: nat) | PageFault(present: bool, write: bool, userMode: bool, cr2: nat)

  /** The answer of a fresh walk. */
  ghost function Fresh(mem: seq<Pte>, root: Page, wp: bool, x: Access): Answer
    requires Placed(mem, root)
  {
    var cr2 := LinearAddress(x.lpgno, x.off);
    match Walk(mem, root, x.lpgno)
    case None => PageFault(false, x.Write(), x.userMode, cr2)
    case Some(m) =>
      if Denied(wp, x.userMode, x.Write(), m.writable, m.user) then PageFault(true, x.Write(), x.userMode, cr2)
      else Physical(PhysicalAddress(m.frame, x.off))
  }

  /** The answer in the bits of the linear address (Intel SDM volume 3A, sections 4.3,
      4.6 and 4.7): bits 31 to 22 choose the directory entry and bits 21 to 12 the
      table entry, the lower bits pass through; both entries must grant the right,
      and CR0.WP extends the protection against writing to supervisor mode. */
  lemma FreshByAddress(mem: seq<Pte>, root: Page, wp: bool, x: Access, dir: nat, table: nat)
    requires Placed(mem, root) && dir < 1024 && table < 1024 && x.lpgno == 1024 * dir + table
    ensures
      var linear := 0x40_0000 * dir + 0x1000 * table + x.off;
      var pde := mem[1024 * root + dir];
      var write := x.rwm >= 2;
      if !pde.present then Fresh(mem, root, wp, x) == PageFault(false, write, x.userMode, linear)
      else
        var pte := mem[1024 * pde.frame + table];
        if !pte.present then Fresh(mem, root, wp, x) == PageFault(false, write, x.userMode, linear)
        else if x.userMode && !(pde.user && pte.user) then Fresh(mem, root, wp, x) == PageFault(true, write, true, linear)
        else if write && (x.userMode || wp) && !(pde.writable && pte.writable) then
          Fresh(mem, root, wp, x) == PageFault(true, true, x.userMode, linear)
        else Fresh(mem, root, wp, x) == Physical(0x1000 * pte.frame + x.off)
  {
    Pages(x.lpgno, x.off, dir, table);
    assert x.lpgno / 1024 == dir && x.lpgno % 1024 == table;
    var pde := mem[1024 * root + dir];
    if pde.present {
      var pte := mem[1024 * pde.frame + table];
      ShlIs(pte.frame, 12);
      assert Shl(1, 12) == 0x1000;
    }
  }

  lemma Pages(lpgno: Page, off: Offset, dir: nat, table: nat)
    requires lpgno == 1024 * dir + table
    ensures LinearAddress(lpgno, off) == 0x40_0000 * dir + 0x1000 * table + off
  {
    ShlIs(lpgno, 12);
    assert Shl(1, 12) == 0x1000;
  }

  lemma {:induction false} ShlIs(a: nat, k: nat)
    ensures Shl(a, k) == a * Shl(1, k)
  {
    if k > 0 {
      ShlIs(a, k - 1);
    }
  }

  /** Only accessed and dirty bits were set. */
  ghost predicate OnlyMarked(mem: seq<Pte>, mem': seq<Pte>) {
    && |mem'| == |mem|
    && forall a :: 0 <= a < |mem| ==> Marked(mem[a], mem'[a])
  }

  predicate Marked(e: Pte, e': Pte) {
    && e' == e.(accessed := e'.accessed, dirty := e'.dirty)
    && (e.accessed ==> e'.accessed) && (e.dirty ==> e'.dirty)
  }

  /** One entry gains no bit but the accessed bit, if it is on the walk, and the
      dirty bit, if it is the table entry of a page written. */
  predicate GainsOnly(e: Pte, e': Pte, walked: bool, written: bool) {
    && Marked(e, e') && (e'.accessed && !e.accessed ==> walked) && (e'.dirty && !e.dirty ==> written)
  }

  /** The entry is one that a walk of the page reads. */
  predicate OnWalk(mem: seq<Pte>, root: Page, lpgno: Page, a: nat)
    requires PdeIndex(root, lpgno) < |mem|
  {
    var pde := mem[PdeIndex(root, lpgno)];
    a == PdeIndex(root, lpgno) || (pde.present && a == pde.frame * 1024 + lpgno % 1024)
  }

  ghost predicate MayDirty(mem: seq<Pte>, root: Page, lpgno: Page, written: bool, a: nat)
    requires Placed(mem, root)
  {
    written && Walk(mem, root, lpgno).Some? && a == Walk(mem, root, lpgno).value.ppte
  }

  /** Translating a page marks no other page's entries, and nothing dirty unless a
      write succeeds. */
  ghost predicate MarksWalk(mem: seq<Pte>, mem': seq<Pte>, root: Page, lpgno: Page, written: bool)
    requires Placed(mem, root)
  {
    && |mem'| == |mem|
    && forall a :: 0 <= a < |mem| ==>
         GainsOnly(mem[a], mem'[a], OnWalk(mem, root, lpgno, a), MayDirty(mem, root, lpgno, written, a))
  }

  lemma MarksWalkOnly(mem: seq<Pte>, mem': seq<Pte>, root: Page, lpgno: Page, written: bool)
    requires Placed(mem, root) && MarksWalk(mem, mem', root, lpgno, written)
    ensures OnlyMarked(mem, mem')
  {
    forall a | 0 <= a < |mem|
      ensures Marked(mem[a], mem'[a])
    {
      assert GainsOnly(mem[a], mem'[a], OnWalk(mem, root, lpgno, a), MayDirty(mem, root, lpgno, written, a));
    }
  }

  lemma MarksWalkTwice(a: seq<Pte>, b: seq<Pte>, c: seq<Pte>, root: Page, lpgno: Page, written: bool)
    requires Placed(a, root) && MarksWalk(a, b, root, lpgno, false) && Placed(b, root) && MarksWalk(b, c, root, lpgno, written)
    ensures MarksWalk(a, c, root, lpgno, written)
  {
    MarksWalkOnly(a, b, root, lpgno, false);
    WalkIgnoresMarks(a, b, root, lpgno);
    var i := PdeIndex(root, lpgno);
    assert Marked(a[i], b[i]);
    forall k | 0 <= k < |a|
      ensures GainsOnly(a[k], c[k], OnWalk(a, root, lpgno, k), MayDirty(a, root, lpgno, written, k))
    {
      assert GainsOnly(a[k], b[k], OnWalk(a, root, lpgno, k), MayDirty(a, root, lpgno, false, k));
      assert GainsOnly(b[k], c[k], OnWalk(b, root, lpgno, k), MayDirty(b, root, lpgno, written, k));
      assert OnWalk(b, root, lpgno, k) == OnWalk(a, root, lpgno, k);
    }
  }

  lemma NoMarks(mem: seq<Pte>, root: Page, lpgno: Page, written: bool)
    requires Placed(mem, root)
    ensures MarksWalk(mem, mem, root, lpgno, written)
  {
  }

  /** Marking changes no walk. */
  lemma WalkIgnoresMarks(mem: seq<Pte>, mem': seq<Pte>, root: Page, lpgno: Page)
    requires Placed(mem, root) && OnlyMarked(mem, mem')
    ensures Placed(mem', root) && Walk(mem', root, lpgno) == Walk(mem, root, lpgno)
  {
    assert forall a :: 0 <= a < |mem| ==> Marked(mem[a], mem'[a]);
    var a := PdeIndex(root, lpgno);
    assert Marked(mem[a], mem'[a]);
  }

  // ------------------------------------------------------------------ entries

  /** -1 in a page number marks an entry that holds nothing. */
  const NONE: int := -1

  datatype TlbEntry = TlbEntry(lpgno: int, xaddr: nat, lookup: seq<seq<bool>>, ppte: nat)

  datatype ReadSlot = ReadSlot(lpgno: int, xaddr: nat, userMode: bool)

  datatype WriteSlot = WriteSlot(lpgno: int, xaddr: nat, userMode: bool, ppte: nat, dirty: bool)

  predicate IsPage(lpgno: int) {
    0 <= lpgno < 0x10_0000
  }

  /** Both entries that a walk of this page uses have their accessed bits set. */
  ghost predicate WasWalked(mem: seq<Pte>, root: Page, lpgno: Page)
    requires Placed(mem, root)
  {
    var m := Walk(mem, root, lpgno);
    m.Some? && mem[PdeIndex(root, lpgno)].accessed && mem[m.value.ppte].accessed
  }

  /** Entry `k` is empty or holds what a walk finds for its page. */
  ghost predicate EntryOk(mem: seq<Pte>, root: Page, wp: bool, e: TlbEntry)
    requires Placed(mem, root)
  {
    IsPage(e.lpgno) ==>
      var m := Walk(mem, root, e.lpgno);
      && WasWalked(mem, root, e.lpgno)
      && e.xaddr == Xaddr(m.value.frame, e.lpgno)
      && e.lookup == LookupRow(wp, m.value.writable, m.value.user)
      && e.ppte == m.value.ppte
  }

  ghost predicate ReadSlotOk(mem: seq<Pte>, root: Page, wp: bool, e: ReadSlot)
    requires Placed(mem, root)
  {
    IsPage(e.lpgno) ==>
      var m := Walk(mem, root, e.lpgno);
      && WasWalked(mem, root, e.lpgno)
      && e.xaddr == Xaddr(m.value.frame, e.lpgno)
      && !Denied(wp, e.userMode, false, m.value.writable, m.value.user)
  }

  ghost predicate WriteSlotOk(mem: seq<Pte>, root: Page, wp: bool, e: WriteSlot)
    requires Placed(mem, root)
  {
    IsPage(e.lpgno) ==>
      var m := Walk(mem, root, e.lpgno);
      && WasWalked(mem, root, e.lpgno)
      && e.xaddr == Xaddr(m.value.frame, e.lpgno)
      && !Denied(wp, e.userMode, true, m.value.writable, m.value.user)
      && e.ppte == m.value.ppte
      && (e.dirty ==> mem[e.ppte].dirty)
  }

  /** Everything cached is what a walk would find. */
  ghost predicate CachesOk(mem: seq<Pte>, root: Page, wp: bool,
                           tab: seq<TlbEntry>, readSlots: seq<ReadSlot>, writeSlots: seq<WriteSlot>)
    requires Placed(mem, root)
  {
    && (forall k :: 0 <= k < |tab| ==> EntryOk(mem, root, wp, tab[k]))
    && (forall k :: 0 <= k < |readSlots| ==> ReadSlotOk(mem, root, wp, readSlots[k]))
    && (forall k :: 0 <= k < |writeSlots| ==> WriteSlotOk(mem, root, wp, writeSlots[k]))
  }

  lemma WalkedStays(mem: seq<Pte>, mem': seq<Pte>, root: Page, lpgno: Page)
    requires Placed(mem, root) && OnlyMarked(mem, mem') && WasWalked(mem, root, lpgno)
    ensures Placed(mem', root) && WasWalked(mem', root, lpgno)
    ensures DirtySet(mem, root, lpgno) ==> DirtySet(mem', root, lpgno)
  {
    WalkIgnoresMarks(mem, mem', root, lpgno);
    var a, b := PdeIndex(root, lpgno), Walk(mem, root, lpgno).value.ppte;
    assert Marked(mem[a], mem'[a]) && Marked(mem[b], mem'[b]);
  }

  lemma MarksKeepCaches(mem: seq<Pte>, mem': seq<Pte>, root: Page, wp: bool,
                        tab: seq<TlbEntry>, readSlots: seq<ReadSlot>, writeSlots: seq<WriteSlot>)
    requires Placed(mem, root) && OnlyMarked(mem, mem') && CachesOk(mem, root, wp, tab, readSlots, writeSlots)
    ensures Placed(mem', root) && CachesOk(mem', root, wp, tab, readSlots, writeSlots)
  {
    forall lpgno: Page
      ensures Placed(mem', root) && Walk(mem', root, lpgno) == Walk(mem, root, lpgno)
    {
      WalkIgnoresMarks(mem, mem', root, lpgno);
    }
    forall k | 0 <= k < |writeSlots|
      ensures WriteSlotOk(mem', root, wp, writeSlots[k])
    {
      var e := writeSlots[k];
      assert WriteSlotOk(mem, root, wp, e);
      if IsPage(e.lpgno) {
        WalkedStays(mem, mem', root, e.lpgno);
        assert Marked(mem[e.ppte], mem'[e.ppte]);
      }
    }
    forall k | 0 <= k < |tab|
      ensures EntryOk(mem', root, wp, tab[k])
    {
      assert EntryOk(mem, root, wp, tab[k]);
      if IsPage(tab[k].lpgno) {
        WalkedStays(mem, mem', root, tab[k].lpgno);
      }
    }
    forall k | 0 <= k < |readSlots|
      ensures ReadSlotOk(mem', root, wp, readSlots[k])
    {
      assert ReadSlotOk(mem, root, wp, readSlots[k]);
      if IsPage(readSlots[k].lpgno) {
        WalkedStays(mem, mem', root, readSlots[k].lpgno);
      }
    }
  }

  // ---------------------------------------------------------------------- MMU

  class Mmu {
    /** Physical memory, as far as it holds page structures. */
    var mem: seq<Pte>
    /** CR3 and CR0.WP. */
    var root: Page
    var wp: bool
    var tab: seq<TlbEntry>
    var readSlots: seq<ReadSlot>
    var writeSlots: seq<WriteSlot>

    ghost predicate Valid()
      reads this
    {
      && |tab| > 0 && |readSlots| > 0 && |writeSlots| == |readSlots|
      && Placed(mem, root)
      && CachesOk(mem, root, wp, tab, readSlots, writeSlots)
    }

    /** tlb_clear: whatever the tables are, an empty cache is right about them. */
    method Clear()
      requires |tab| > 0 && |readSlots| > 0 && |writeSlots| == |readSlots| && Placed(mem, root)
      modifies `tab, `readSlots, `writeSlots
      ensures Valid()
      ensures |tab| == |old(tab)| && |readSlots| == |old(readSlots)|
    {
      for i := 0 to |tab|
        invariant |tab| == |old(tab)| && readSlots == old(readSlots) && writeSlots == old(writeSlots)
        invariant forall k :: 0 <= k < i ==> tab[k].lpgno == NONE
      {
        tab := tab[i := tab[i].(lpgno := NONE)];
      }
      for i := 0 to |readSlots|
        invariant |tab| == |old(tab)| && forall k :: 0 <= k < |tab| ==> tab[k].lpgno == NONE
        invariant |readSlots| == |old(readSlots)| == |writeSlots|
        invariant forall k :: 0 <= k < i ==> readSlots[k].lpgno == NONE && writeSlots[k].lpgno == NONE
      {
        readSlots := readSlots[i := readSlots[i].(lpgno := NONE)];
        writeSlots := writeSlots[i := writeSlots[i].(lpgno := NONE, ppte := 0, dirty := false)];
      }
    }

    /** A write to CR3. */
    method SetRoot(root': Page)
      requires |tab| > 0 && |readSlots| > 0 && |writeSlots| == |readSlots| && Placed(mem, root')
      modifies this
      ensures Valid() && root == root' && wp == old(wp) && mem == old(mem)
    {
      root := root';
      Clear();
    }

    /** A write to CR0 with this write-protect bit. */
    method SetWriteProtect(wp': bool)
      requires Valid()
      modifies this
      ensures Valid() && wp == wp' && root == old(root) && mem == old(mem)
    {
      if wp' != wp {
        wp := wp';
        Clear();
      }
    }

    /** The guest has changed its tables and executes INVLPG, which empties all of
        the cache. */
    method Remap(mem': seq<Pte>)
      requires |tab| > 0 && |readSlots| > 0 && |writeSlots| == |readSlots| && Placed(mem', root)
      modifies this
      ensures Valid() && mem == mem' && root == old(root) && wp == old(wp)
    {
      mem := mem';
      Clear();
    }

    method MarkDirty(ppte: nat)
      requires Valid() && ppte < |mem|
      modifies `mem
      ensures Valid() && OnlyMarked(old(mem), mem) && mem == old(mem)[ppte := old(mem[ppte]).(dirty := true)]
    {
      mem := mem[ppte := mem[ppte].(dirty := true)];
      MarksKeepCaches(old(mem), mem, root, wp, tab, readSlots, writeSlots);
    }

    method MarkAccessed(a: nat)
      requires Valid() && a < |mem|
      modifies `mem
      ensures Valid() && OnlyMarked(old(mem), mem) && mem == old(mem)[a := old(mem[a]).(accessed := true)]
      ensures forall lpgno: Page :: Walk(mem, root, lpgno) == Walk(old(mem), root, lpgno)
    {
      mem := mem[a := mem[a].(accessed := true)];
      MarksKeepCaches(old(mem), mem, root, wp, tab, readSlots, writeSlots);
      forall lpgno: Page
        ensures Walk(mem, root, lpgno) == Walk(old(mem), root, lpgno)
      {
        WalkIgnoresMarks(old(mem), mem, root, lpgno);
      }
    }

    /** tlb_refill: walk the tables for a page into its entry, setting accessed bits. */
    method Refill(lpgno: Page) returns (ok: bool)
      requires Valid()
      modifies `mem, `tab
      ensures Valid() && OnlyMarked(old(mem), mem) && |tab| == |old(tab)|
      ensures MarksWalk(old(mem), mem, root, lpgno, false)
      ensures ok <==> Walk(old(mem), root, lpgno).Some?
      ensures ok ==> tab[lpgno % |tab|].lpgno == lpgno
    {
      var a := PdeIndex(root, lpgno);
      var pde := mem[a];
      OnlyMarkedIsReflexive(mem);
      if !pde.present {
        return false;
      }
      MarkAccessed(a);
      var b := pde.frame * 1024 + lpgno % 1024;
      assert mem[a].frame == pde.frame;
      var pte := mem[b];
      if !pte.present {
        return false;
      }
      ghost var between := mem;
      MarkAccessed(b);
      OnlyMarkedIsTransitive(old(mem), between, mem);
      var e := TlbEntry(lpgno, Xaddr(pte.frame, lpgno),
                        LookupRow(wp, pde.writable && pte.writable, pde.user && pte.user), b);
      assert EntryOk(mem, root, wp, e);
      tab := tab[lpgno % |tab| := e];
      ok := true;
    }

    /** translate_lpgno: the main TLB. */
    method TranslateMain(x: Access) returns (answer: Answer)
      requires Valid() && x.Valid()
      modifies `mem, `tab
      ensures Valid() && OnlyMarked(old(mem), mem) && |tab| == |old(tab)|
      ensures answer == Fresh(old(mem), root, wp, x)
      ensures LeavesMarks(mem, root, x, answer) && MarksWalk(old(mem), mem, root, x.lpgno, x.Write() && answer.Physical?)
      ensures answer.Physical? ==> tab[x.lpgno % |tab|].lpgno == x.lpgno
    {
      hide MarksWalk;
      var k := x.lpgno % |tab|;
      var laddr := LinearAddress(x.lpgno, x.off);
      OnlyMarkedIsReflexive(mem);
      NoMarks(mem, root, x.lpgno, false);
      if tab[k].lpgno != x.lpgno {
        var ok := Refill(x.lpgno);
        if !ok {
          return PageFault(false, x.rwm >= 2, x.userMode, laddr);
        }
      }
      WalkIgnoresMarks(old(mem), mem, root, x.lpgno);
      ghost var between := mem;
      answer := AnswerFrom(k, x, laddr);
      OnlyMarkedIsTransitive(old(mem), between, mem);
      MarksWalkTwice(old(mem), between, mem, root, x.lpgno, x.Write() && answer.Physical?);
    }

    /** The common tail: check the entry's rights, then use it. */
    method AnswerFrom(k: nat, x: Access, laddr: nat) returns (answer: Answer)
      requires Valid() && x.Valid() && laddr == LinearAddress(x.lpgno, x.off)
      requires k == x.lpgno % |tab| && tab[k].lpgno == x.lpgno
      modifies `mem, `tab
      ensures Valid() && OnlyMarked(old(mem), mem) && |tab| == |old(tab)|
      ensures answer == Fresh(old(mem), root, wp, x)
      ensures LeavesMarks(mem, root, x, answer) && MarksWalk(old(mem), mem, root, x.lpgno, x.Write() && answer.Physical?)
      ensures answer.Physical? ==> tab == old(tab)
    {
      var e := tab[k];
      assert EntryOk(mem, root, wp, e);
      ghost var m := Walk(mem, root, x.lpgno).value;
      LookupIsDenied(wp, m.writable, m.user, x.userMode, x.Write());
      XaddrTranslates(m.frame, x.lpgno, x.off);
      OnlyMarkedIsReflexive(mem);
      if e.lookup[Index(x.userMode)][Index(x.rwm > 1)] {
        tab := tab[k := e.(lpgno := NONE)];
        return PageFault(true, x.rwm >= 2, x.userMode, laddr);
      }
      answer := Physical(Xor(e.xaddr, laddr));
      if x.rwm >= 2 {
        MarkDirty(e.ppte);
        WalkIgnoresMarks(old(mem), mem, root, x.lpgno);
      }
    }

    /** A hit in the slots, if there is one. */
    method LookInSlots(x: Access) returns (hit: bool, answer: Answer)
      requires Valid() && x.Valid()
      modifies `mem, `writeSlots
      ensures Valid() && OnlyMarked(old(mem), mem) && |writeSlots| == |old(writeSlots)|
      ensures !hit ==> mem == old(mem) && writeSlots == old(writeSlots)
      ensures hit ==> answer.Physical? && answer == Fresh(old(mem), root, wp, x) && LeavesMarks(mem, root, x, answer)
      ensures MarksWalk(old(mem), mem, root, x.lpgno, x.Write())
    {
      var slot := x.lpgno % |readSlots|;
      var laddr := LinearAddress(x.lpgno, x.off);
      var r, w := readSlots[slot], writeSlots[slot];
      OnlyMarkedIsReflexive(mem);
      assert ReadSlotOk(mem, root, wp, r) && WriteSlotOk(mem, root, wp, w);
      if x.rwm == 1 && r.lpgno == x.lpgno && r.userMode == x.userMode {
        XaddrTranslates(Walk(mem, root, x.lpgno).value.frame, x.lpgno, x.off);
        return true, Physical(Xor(r.xaddr, laddr));
      }
      if x.rwm <= 2 && w.lpgno == x.lpgno && w.userMode == x.userMode {
        XaddrTranslates(Walk(mem, root, x.lpgno).value.frame, x.lpgno, x.off);
        if x.rwm == 2 && !w.dirty {
          MarkDirty(w.ppte);
          WalkIgnoresMarks(old(mem), mem, root, x.lpgno);
          writeSlots := writeSlots[slot := w.(dirty := true)];
        }
        return true, Physical(Xor(w.xaddr, laddr));
      }
      hit, answer := false, Physical(0);
    }

    /** Remembers an answer of the main TLB in the slots, or forgets the page
        when its rights did not suffice. */
    method Remember(x: Access, answer: Answer)
      requires Valid() && x.Valid()
      requires answer == Fresh(mem, root, wp, x) && LeavesMarks(mem, root, x, answer)
      requires answer.Physical? ==> tab[x.lpgno % |tab|].lpgno == x.lpgno
      modifies `readSlots, `writeSlots
      ensures Valid() && |readSlots| == |old(readSlots)|
    {
      var slot := x.lpgno % |readSlots|;
      match answer
      case PageFault(present, _, _, _) =>
        if present {
          if readSlots[slot].lpgno == x.lpgno {
            readSlots := readSlots[slot := readSlots[slot].(lpgno := NONE)];
          }
          if writeSlots[slot].lpgno == x.lpgno {
            writeSlots := writeSlots[slot := writeSlots[slot].(lpgno := NONE, dirty := false)];
          }
        }
      case Physical(_) =>
        var e := tab[x.lpgno % |tab|];
        assert EntryOk(mem, root, wp, e);
        if x.rwm >= 2 {
          writeSlots := writeSlots[slot := WriteSlot(x.lpgno, e.xaddr, x.userMode, e.ppte, true)];
        } else {
          readSlots := readSlots[slot := ReadSlot(x.lpgno, e.xaddr, x.userMode)];
        }
    }

    /** translate_lpgno_fast: the slots first, then the main TLB. */
    method Translate(x: Access) returns (answer: Answer)
      requires Valid() && x.Valid()
      modifies `mem, `tab, `readSlots, `writeSlots
      ensures Valid() && OnlyMarked(old(mem), mem)
      ensures |tab| == |old(tab)| && |readSlots| == |old(readSlots)|
      ensures answer == Fresh(old(mem), root, wp, x)
      ensures LeavesMarks(mem, root, x, answer) && MarksWalk(old(mem), mem, root, x.lpgno, x.Write() && answer.Physical?)
    {
      hide MarksWalk;
      var hit;
      hit, answer := LookInSlots(x);
      if hit {
        return;
      }
      answer := TranslateMain(x);
      WalkIgnoresMarks(old(mem), mem, root, x.lpgno);
      Remember(x, answer);
    }
  }

  /** The table entry for the page has its dirty bit set. */
  ghost predicate DirtySet(mem: seq<Pte>, root: Page, lpgno: Page)
    requires Placed(mem, root)
  {
    var m := Walk(mem, root, lpgno);
    m.Some? && mem[m.value.ppte].dirty
  }

  lemma OnlyMarkedIsReflexive(mem: seq<Pte>)
    ensures OnlyMarked(mem, mem)
  {
  }

  lemma OnlyMarkedIsTransitive(a: seq<Pte>, b: seq<Pte>, c: seq<Pte>)
    requires OnlyMarked(a, b) && OnlyMarked(b, c)
    ensures OnlyMarked(a, c)
  {
    forall i | 0 <= i < |a|
      ensures Marked(a[i], c[i])
    {
      assert Marked(a[i], b[i]) && Marked(b[i], c[i]);
    }
  }

  // --------------------------------------------------------------------- runs

  /** An access, a write to CR3 or to CR0, or new tables and INVLPG. */
  datatype Operation = Use(x: Access) | LoadRoot(root: Page) | LoadWp(wp: bool) | NewTables(mem: seq<Pte>)

  /** What a fresh walk needs to know. */
  datatype Tables = Tables(mem: seq<Pte>, root: Page, wp: bool)

  function After(t: Tables, op: Operation): Tables {
    match op
    case Use(_) => t
    case LoadRoot(root) => t.(root := root)
    case LoadWp(wp) => t.(wp := wp)
    case NewTables(mem) => t.(mem := mem)
  }

  function TablesAfter(t: Tables, ops: seq<Operation>): Tables {
    if ops == [] then t else After(TablesAfter(t, ops[..|ops| - 1]), ops[|ops| - 1])
  }

  /** The tables are where the registers say, and accesses are of the three kinds. */
  ghost predicate Allowed(t: Tables, ops: seq<Operation>) {
    && Placed(TablesAfter(t, ops).mem, TablesAfter(t, ops).root)
    && (ops == [] || (Allowed(t, ops[..|ops| - 1]) && (ops[|ops| - 1].Use? ==> ops[|ops| - 1].x.Valid())))
  }

  /** The answers without any cache. */
  ghost function AnswersOf(t: Tables, ops: seq<Operation>): seq<Answer>
    requires Allowed(t, ops)
  {
    if ops == [] then []
    else
      var before, now := ops[..|ops| - 1], TablesAfter(t, ops);
      AnswersOf(t, before) + match ops[|ops| - 1] case Use(x) => [Fresh(now.mem, now.root, now.wp, x)] case _ => []
  }

  /** Every access that succeeded, since the tables were last replaced, has left its
      accessed bits, and its dirty bit if it was a write, set in `mem`. */
  ghost predicate MarksLeft(t: Tables, ops: seq<Operation>, mem: seq<Pte>)
    requires Allowed(t, ops)
  {
    ops == [] ||
    match ops[|ops| - 1]
    case NewTables(_) => true
    case Use(x) =>
      var now := TablesAfter(t, ops);
      && Placed(mem, now.root) && LeavesMarks(mem, now.root, x, Fresh(now.mem, now.root, now.wp, x))
      && MarksLeft(t, ops[..|ops| - 1], mem)
    case _ => MarksLeft(t, ops[..|ops| - 1], mem)
  }

  lemma {:induction false} MarksLeftStay(t: Tables, ops: seq<Operation>, mem: seq<Pte>, mem': seq<Pte>)
    requires Allowed(t, ops) && OnlyMarked(mem, mem') && MarksLeft(t, ops, mem)
    ensures MarksLeft(t, ops, mem')
    decreases |ops|
  {
    hide OnlyMarked, LeavesMarks, Fresh, Placed;
    if ops != [] && !ops[|ops| - 1].NewTables? {
      MarksLeftStay(t, ops[..|ops| - 1], mem, mem');
      if ops[|ops| - 1].Use? {
        var x, now := ops[|ops| - 1].x, TablesAfter(t, ops);
        MarksStay(mem, mem', now.root, x, Fresh(now.mem, now.root, now.wp, x));
      }
    }
  }

  /** The MMU's tables are these, but for accessed and dirty bits. */
  ghost predicate Follows(mmu: Mmu, t: Tables)
    reads mmu
  {
    mmu.Valid() && Placed(t.mem, t.root) && OnlyMarked(t.mem, mmu.mem) && mmu.root == t.root && mmu.wp == t.wp
  }

  lemma AllowedBefore(t: Tables, ops: seq<Operation>, i: nat)
    requires Allowed(t, ops) && i < |ops|
    ensures ops[..i + 1][..i] == ops[..i] && TablesAfter(t, ops[..i + 1]) == After(TablesAfter(t, ops[..i]), ops[i])
    ensures Allowed(t, ops[..i + 1]) && Allowed(t, ops[..i]) && (ops[i].Use? ==> ops[i].x.Valid())
    decreases |ops|
  {
    hide Placed, Fresh;
    assert ops[..i + 1][..i] == ops[..i];
    if i + 1 < |ops| {
      var before := ops[..|ops| - 1];
      AllowedBefore(t, before, i);
      assert before[..i + 1] == ops[..i + 1];
    } else {
      assert ops[..i + 1] == ops;
    }
  }

  /** One operation more. */
  method Perform(mmu: Mmu, op: Operation, ghost t: Tables) returns (answers: seq<Answer>)
    requires Follows(mmu, t) && Placed(After(t, op).mem, After(t, op).root) && (op.Use? ==> op.x.Valid())
    modifies mmu
    ensures Follows(mmu, After(t, op))
    ensures answers == match op case Use(x) => [Fresh(t.mem, t.root, t.wp, x)] case _ => []
    ensures op.Use? ==> LeavesMarks(mmu.mem, t.root, op.x, Fresh(t.mem, t.root, t.wp, op.x))
    ensures !op.NewTables? ==> OnlyMarked(old(mmu.mem), mmu.mem)
  {
    hide Walk, LeavesMarks, CachesOk, OnlyMarked, Placed;
    answers := [];
    OnlyMarkedIsReflexive(mmu.mem);
    match op
    case Use(x) =>
      WalkIgnoresMarks(t.mem, mmu.mem, t.root, x.lpgno);
      var answer := mmu.Translate(x);
      OnlyMarkedIsTransitive(t.mem, old(mmu.mem), mmu.mem);
      answers := [answer];
    case LoadRoot(root) =>
      WalkIgnoresMarks(t.mem, mmu.mem, root, 0);
      mmu.SetRoot(root);
    case LoadWp(wp) =>
      mmu.SetWriteProtect(wp);
    case NewTables(mem) =>
      OnlyMarkedIsReflexive(mem);
      mmu.Remap(mem);
  }

  /** Whatever comes before it - hits, misses, evictions, faults, changes of
      privilege and of the control registers, new tables announced by INVLPG -
      each access of a run is answered as a fresh walk would answer it, and the
      tables only ever gain accessed and dirty bits. */
  method Run(mmu: Mmu, ops: seq<Operation>) returns (answers: seq<Answer>)
    requires mmu.Valid() && Allowed(Tables(mmu.mem, mmu.root, mmu.wp), ops)
    modifies mmu
    ensures
      var t := Tables(old(mmu.mem), old(mmu.root), old(mmu.wp));
      answers == AnswersOf(t, ops) && Follows(mmu, TablesAfter(t, ops)) && MarksLeft(t, ops, mmu.mem)
  {
    hide DirtySet, Walk, LeavesMarks, CachesOk, OnlyMarked, Placed, Fresh;
    ghost var t := Tables(mmu.mem, mmu.root, mmu.wp);
    answers := [];
    OnlyMarkedIsReflexive(mmu.mem);
    for i := 0 to |ops|
      invariant Allowed(t, ops[..i]) && Follows(mmu, TablesAfter(t, ops[..i]))
      invariant answers == AnswersOf(t, ops[..i]) && MarksLeft(t, ops[..i], mmu.mem)
    {
      AllowedBefore(t, ops, i);
      ghost var before := mmu.mem;
      var more := Perform(mmu, ops[i], TablesAfter(t, ops[..i]));
      if !ops[i].NewTables? {
        MarksLeftStay(t, ops[..i], before, mmu.mem);
      }
      answers := answers + more;
    }
    assert ops[..|ops|] == ops;
  }

  /** An access that succeeded has left the accessed bits of both levels set, and a
      write the dirty bit too. */
  ghost predicate LeavesMarks(mem: seq<Pte>, root: Page, x: Access, answer: Answer)
    requires Placed(mem, root)
  {
    answer.Physical? ==> WasWalked(mem, root, x.lpgno) && (x.Write() ==> DirtySet(mem, root, x.lpgno))
  }

  lemma MarksStay(mem: seq<Pte>, mem': seq<Pte>, root: Page, x: Access, answer: Answer)
    requires Placed(mem, root) && OnlyMarked(mem, mem') && LeavesMarks(mem, root, x, answer)
    ensures Placed(mem', root) && LeavesMarks(mem', root, x, answer)
  {
    WalkIgnoresMarks(mem, mem', root, x.lpgno);
    if answer.Physical? {
      WalkedStays(mem, mem', root, x.lpgno);
    }
  }
}
