/** The sector address registers of an ATA drive, as LBA or cylinder, head and
    sector. */
module AtaAddress {
  import opened Arithmetic
  import opened DataPort

  datatype Geometry = Geometry(heads: nat, sectors: nat) {
    predicate Valid() {
      1 <= heads <= 16 && 1 <= sectors <= 255
    }

    /** Sectors to a cylinder. */
    function Cylinder(): nat {
      Times(heads, sectors)
    }
  }

  /** The drive's address registers. */
  datatype Address = Address(select: Byte, hcyl: Byte, lcyl: Byte, sector: Byte) {
    predicate Lba() {
      select / 64 % 2 == 1
    }
  }

  function GetSector(g: Geometry, a: Address): int {
    if a.Lba() then a.select % 16 * 0x100_0000 + a.hcyl * 0x1_0000 + a.lcyl * 0x100 + a.sector
    else Times(a.hcyl * 256 + a.lcyl, g.Cylinder()) + Times(a.select % 16, g.sectors) + (a.sector - 1)
  }

  function SetSector(g: Geometry, a: Address, n: nat): Address
    requires g.Valid()
  {
    if a.Lba() then
      Address(a.select - a.select % 16 + n / 0x100_0000 % 16, n / 0x1_0000 % 256, n / 0x100 % 256, n % 256)
    else
      var cyl, r := Over(n, g.Cylinder()), Rest(n, g.Cylinder());
      Address(a.select - a.select % 16 + Over(r, g.sectors) % 16, cyl / 256 % 256, cyl % 256, (Rest(r, g.sectors) + 1) % 256)
  }

  /** How many sectors the registers can name. */
  function Capacity(g: Geometry, a: Address): nat {
    if a.Lba() then 0x1000_0000 else Times(0x1_0000, g.Cylinder())
  }

  lemma LbaDigits(n: nat)
    ensures
      n / 0x100_0000 % 16 * 0x100_0000 + n / 0x1_0000 % 256 * 0x1_0000 + n / 0x100 % 256 * 0x100 + n % 256 == n % 0x1000_0000
  {
    var a := n / 0x100;
    var b := a / 0x100;
    var c := b / 0x100;
    var d := c / 16;
    assert n / 0x1_0000 == b;
    assert n / 0x100_0000 == c;
    assert n / 0x1000_0000 == d;
  }

  lemma SelectKeepsMode(select: Byte, low: nat)
    requires low < 16
    ensures
      var s := select - select % 16 + low;
      0 <= s < 256 && s % 16 == low && s - s % 16 == select - select % 16 && s / 64 % 2 == select / 64 % 2
  {
    var s, h := select - select % 16 + low, select / 16;
    assert s == 16 * h + low && s / 16 == h;
    assert s / 64 == h / 4 && select / 64 == h / 4;
  }

  /** LBA: the registers hold 28 bits of the sector number. */
  lemma LbaRoundTrip(g: Geometry, a: Address, n: nat, b: Address)
    requires g.Valid() && a.Lba() && b == SetSector(g, a, n)
    ensures b.Lba() && GetSector(g, b) == n % 0x1000_0000
  {
    SelectKeepsMode(a.select, n / 0x100_0000 % 16);
    LbaDigits(n);
  }

  /** CHS: the cylinder, head and sector that SetSector finds. */
  lemma Parts(g: Geometry, a: Address, n: nat, b: Address) returns (cyl: nat, head: nat, s: nat)
    requires g.Valid() && !a.Lba() && b == SetSector(g, a, n)
    ensures n == Times(cyl, g.Cylinder()) + (Times(head, g.sectors) + s)
    ensures head < g.heads && s < g.sectors
    ensures b == Address(a.select - a.select % 16 + head, cyl / 256 % 256, cyl % 256, s + 1)
  {
    var r := Rest(n, g.Cylinder());
    cyl, head, s := Over(n, g.Cylinder()), Over(r, g.sectors), Rest(r, g.sectors);
    OverRest(n, g.Cylinder());
    OverRest(r, g.sectors);
    if g.heads < head {
      TimesLess(g.heads, head, g.sectors);
    }
  }

  lemma PartsBack(g: Geometry, a: Address, b: Address, cyl: nat, head: nat, s: nat)
    requires g.Valid() && !a.Lba() && head < g.heads && s < g.sectors
    requires b == Address(a.select - a.select % 16 + head, cyl / 256 % 256, cyl % 256, s + 1)
    ensures !b.Lba() && Proper(g, b)
    ensures GetSector(g, b) == Times(cyl % 0x1_0000, g.Cylinder()) + Times(head, g.sectors) + s
  {
    SelectKeepsMode(a.select, head);
    var c := cyl / 256;
    assert cyl / 0x1_0000 == c / 256;
    assert b.hcyl * 256 + b.lcyl == cyl % 0x1_0000;
  }

  /** So many times over the cylinders that 16 bits can number, and the rest. */
  lemma {:induction false} Laps(q: nat, c: nat, k: nat)
    ensures Times(q * 0x1_0000 + c, k) == Times(q, Times(0x1_0000, k)) + Times(c, k)
  {
    if q > 0 {
      Laps(q - 1, c, k);
      TimesApart(0x1_0000, (q - 1) * 0x1_0000 + c, k);
    }
  }

  lemma Reach(n: nat, k: nat, cyl: nat, r: nat)
    requires n == Times(cyl, k) + r && r < k
    ensures 0 < Times(0x1_0000, k) && Rest(n, Times(0x1_0000, k)) == Times(cyl % 0x1_0000, k) + r
  {
    Laps(cyl / 0x1_0000, cyl % 0x1_0000, k);
    TimesLess(cyl % 0x1_0000, 0x1_0000, k);
    OverIs(n, cyl / 0x1_0000, Times(0x1_0000, k), Times(cyl % 0x1_0000, k) + r);
  }

  /** The registers hold a position of the drive: with CHS, an existing head and
      a sector counted from 1. */
  predicate Proper(g: Geometry, a: Address) {
    a.Lba() || (a.select % 16 < g.heads && 1 <= a.sector <= g.sectors)
  }

  /** What is read back after a position is set: the position modulo all that
      the registers can name. */
  lemma GetAfterSet(g: Geometry, a: Address, n: nat, b: Address)
    requires g.Valid() && b == SetSector(g, a, n)
    ensures 0 < Capacity(g, a) && GetSector(g, b) == Rest(n, Capacity(g, a))
    ensures b.Lba() == a.Lba() && Proper(g, b)
  {
    if a.Lba() {
      LbaRoundTrip(g, a, n, b);
      IsDivision(n, 0x1000_0000);
    } else {
      ChsRoundTrip(g, a, n, b);
    }
  }

  lemma ChsRoundTrip(g: Geometry, a: Address, n: nat, b: Address)
    requires g.Valid() && !a.Lba() && b == SetSector(g, a, n)
    ensures 0 < Times(0x1_0000, g.Cylinder()) && GetSector(g, b) == Rest(n, Times(0x1_0000, g.Cylinder()))
    ensures !b.Lba() && Proper(g, b)
  {
    var cyl, head, s := Parts(g, a, n, b);
    hide SetSector;
    PartsBack(g, a, b, cyl, head, s);
    TimesLess(head, g.heads, g.sectors);
    Reach(n, g.Cylinder(), cyl, Times(head, g.sectors) + s);
  }

  /** The registers can be read back exactly up to their capacity. */
  lemma GetInvertsSet(g: Geometry, a: Address, n: nat, b: Address)
    requires g.Valid() && b == SetSector(g, a, n)
    ensures GetSector(g, b) == n <==> n < Capacity(g, a)
    ensures b.Lba() == a.Lba() && Proper(g, b)
  {
    hide SetSector, GetSector;
    GetAfterSet(g, a, n, b);
  }

  lemma ProperChs(g: Geometry, a: Address)
    requires g.Valid() && !a.Lba() && Proper(g, a)
    ensures GetSector(g, a) >= 0 && SetSector(g, a, GetSector(g, a)) == a
  {
    var head, s, cyl := a.select % 16, a.sector - 1, a.hcyl * 256 + a.lcyl;
    TimesLess(head, g.heads, g.sectors);
    Cut(g, GetSector(g, a), cyl, head, s);
    SameFields(a, cyl, head, s);
  }

  lemma Cut(g: Geometry, n: nat, cyl: nat, head: nat, s: nat)
    requires g.Valid() && s < g.sectors && Times(head, g.sectors) + s < g.Cylinder()
    requires n == Times(cyl, g.Cylinder()) + Times(head, g.sectors) + s
    ensures var r := Rest(n, g.Cylinder()); Over(n, g.Cylinder()) == cyl && Over(r, g.sectors) == head && Rest(r, g.sectors) == s
  {
    OverIs(n, cyl, g.Cylinder(), Times(head, g.sectors) + s);
    OverIs(Times(head, g.sectors) + s, head, g.sectors, s);
  }

  lemma SameFields(a: Address, cyl: nat, head: nat, s: nat)
    requires head == a.select % 16 && s + 1 == a.sector && cyl == a.hcyl * 256 + a.lcyl
    ensures Address(a.select - a.select % 16 + head % 16, cyl / 256 % 256, cyl % 256, (s + 1) % 256) == a
  {
    assert cyl / 256 == a.hcyl;
  }

  lemma ProperLba(g: Geometry, a: Address)
    requires g.Valid() && a.Lba()
    ensures GetSector(g, a) >= 0 && SetSector(g, a, GetSector(g, a)) == a
  {
    var n, low := GetSector(g, a), a.select % 16;
    assert n / 0x100 == low * 0x1_0000 + a.hcyl * 0x100 + a.lcyl;
    assert n / 0x1_0000 == low * 0x100 + a.hcyl;
    assert n / 0x100_0000 == low;
  }

  /** Writing back what was read changes nothing exactly for proper registers. */
  lemma SetInvertsGet(g: Geometry, a: Address)
    requires g.Valid()
    ensures GetSector(g, a) >= 0 && SetSector(g, a, GetSector(g, a)) == a <==> Proper(g, a)
  {
    if a.Lba() {
      ProperLba(g, a);
    } else if Proper(g, a) {
      ProperChs(g, a);
    } else if GetSector(g, a) >= 0 {
      GetInvertsSet(g, a, GetSector(g, a), SetSector(g, a, GetSector(g, a)));
    }
  }

  lemma SetKeepsHigh(g: Geometry, a: Address, m: nat, b: Address)
    requires g.Valid() && b == SetSector(g, a, m)
    ensures b.select - b.select % 16 == a.select - a.select % 16
  {
    if a.Lba() {
      SelectKeepsMode(a.select, m / 0x100_0000 % 16);
    } else {
      var cyl, head, s := Parts(g, a, m, b);
      SelectKeepsMode(a.select, head);
    }
  }

  /** Only the last position set matters. */
  lemma SetTwice(g: Geometry, a: Address, m: nat, b: Address, n: nat)
    requires g.Valid() && b == SetSector(g, a, m)
    ensures SetSector(g, b, n) == SetSector(g, a, n)
  {
    GetAfterSet(g, a, m, b);
    SetKeepsHigh(g, a, m, b);
  }

  /** The registers by name. LBA: bits 0 to 7 in the sector register, 8 to 15 and 16 to
      23 in the cylinder registers, 24 to 27 in the low half of the select register,
      whose high half stays. */
  lemma LbaRegisters(g: Geometry, a: Address, n: nat)
    requires g.Valid() && a.select / 64 % 2 == 1
    ensures
      var b := SetSector(g, a, n);
      && b.sector == n % 0x100 && b.lcyl == n / 0x100 % 0x100 && b.hcyl == n / 0x1_0000 % 0x100
      && b.select % 16 == n / 0x100_0000 % 16 && b.select / 16 == a.select / 16
    ensures GetSector(g, a) == a.sector + 0x100 * a.lcyl + 0x1_0000 * a.hcyl + 0x100_0000 * (a.select % 16)
  {
    var b := SetSector(g, a, n);
    assert b.select == 16 * (a.select / 16) + n / 0x100_0000 % 16;
  }

  /** CHS: sectors, counted from 1, run fastest, then heads, then the 16-bit cylinder. */
  lemma ChsRegisters(g: Geometry, a: Address, cylinder: nat, head: nat, sector: nat)
    requires g.Valid() && a.select / 64 % 2 == 0 && cylinder < 0x1_0000 && head < g.heads && 1 <= sector <= g.sectors
    ensures
      var n := (cylinder * g.heads + head) * g.sectors + sector - 1;
      n >= 0 && SetSector(g, a, n) == Address(a.select - a.select % 16 + head, cylinder / 256, cylinder % 256, sector)
    ensures
      a == Address(a.select - a.select % 16 + head, cylinder / 256, cylinder % 256, sector) ==>
        GetSector(g, a) == (cylinder * g.heads + head) * g.sectors + sector - 1
  {
    hide *;
    ChsNumber(g, cylinder, head, sector);
    ChsPosition(g, a, cylinder, head, sector, (cylinder * g.heads + head) * g.sectors + sector - 1);
  }

  lemma ChsPosition(g: Geometry, a: Address, cylinder: nat, head: nat, sector: nat, n: nat)
    requires g.Valid() && a.select / 64 % 2 == 0 && cylinder < 0x1_0000 && head < g.heads && 1 <= sector <= g.sectors
    requires n == Times(cylinder, g.Cylinder()) + Times(head, g.sectors) + (sector - 1)
    requires Times(head, g.sectors) + (sector - 1) < g.Cylinder()
    ensures SetSector(g, a, n) == Address(a.select - a.select % 16 + head, cylinder / 256, cylinder % 256, sector)
    ensures a == Address(a.select - a.select % 16 + head, cylinder / 256, cylinder % 256, sector) ==> GetSector(g, a) == n
  {
    hide Times;
    Cut(g, n, cylinder, head, sector - 1);
    SmallCylinder(cylinder);
  }

  lemma SmallCylinder(cylinder: nat)
    requires cylinder < 0x1_0000
    ensures cylinder / 256 % 256 == cylinder / 256 && cylinder / 256 * 256 + cylinder % 256 == cylinder
  {
  }

  lemma ChsNumber(g: Geometry, cylinder: nat, head: nat, sector: nat)
    requires g.Valid() && head < g.heads && 1 <= sector <= g.sectors
    ensures
      (cylinder * g.heads + head) * g.sectors + sector - 1
      == Times(cylinder, g.Cylinder()) + Times(head, g.sectors) + (sector - 1) >= 0
    ensures Times(head, g.sectors) + (sector - 1) < g.Cylinder()
  {
    TimesLess(head, g.heads, g.sectors);
    hide Times;
    IsProduct(g.heads, g.sectors);
    IsProduct(cylinder, g.Cylinder());
    IsProduct(head, g.sectors);
    Distribute(cylinder, g.heads, head, g.sectors);
  }

  lemma Distribute(a: nat, b: nat, c: nat, k: nat)
    ensures (a * b + c) * k == a * (b * k) + c * k
  {
  }
}
