/**
 The address registers of an ATA command: how they name a block, how they are stepped while
 sectors are transferred, and how they are written back.
 */
module AtaParams {
  import opened Bits

  const WORD: nat := 0x1_0000_0000
  const LBA_LIMIT: nat := 0x1000_0000

  /** The working copies of the address registers, in their widths. */
  datatype Address = Address(sector: nat, cylinder: nat, head: nat, lba: nat)

  datatype Geometry = Geometry(heads: nat, sectors: nat)

  predicate Widths(a: Address) {
    a.sector < 0x1_0000 && a.cylinder < 0x1_0000 && a.head < 0x100 && a.lba < WORD
  }

  /** The eight task file registers. */
  type TaskFile = t: seq<byte> | |t| == 8 witness [0, 0, 0, 0, 0, 0, 0, 0]

  /** The block a cylinder, head and sector stand for; sectors count from 1. */
  function Chs(g: Geometry, a: Address): int {
    (a.cylinder * g.heads + a.head) * g.sectors + a.sector - 1
  }

  predicate InGeometry(g: Geometry, a: Address) {
    1 <= a.sector <= g.sectors && a.head < g.heads
  }

  /** Stepping would carry a register past its width. */
  predicate Wraps(g: Geometry, a: Address) {
    if a.sector != g.sectors then a.sector == 0xffff
    else if a.head == 0xff then true
    else a.head + 1 == g.heads && a.cylinder == 0xffff
  }

  lemma ChsStep(c: int, h: int, s: int, heads: int, sectors: int)
    ensures ((c + 1) * heads + 0) * sectors == (c * heads + heads) * sectors
    ensures (c * heads + h + 1) * sectors == (c * heads + h) * sectors + sectors
  {
    assert (c + 1) * heads == c * heads + heads;
    var x := c * heads + h;
    assert (x + 1) * sectors == x * sectors + sectors;
  }

  /**
   Drv08_IncParams: the next block; cylinder, head and sector keep naming the block of the LBA
   exactly as long as none of them wraps.
   */
  method IncParams(g: Geometry, a: Address) returns (r: Address)
    requires Widths(a) && g.heads >= 1 && g.sectors >= 1
    ensures Widths(r) && r.lba == (a.lba + 1) % WORD
    ensures Chs(g, r) == Chs(g, a) + 1 <==> !Wraps(g, a)
    ensures InGeometry(g, a) && g.heads <= 0x100 && g.sectors < 0x1_0000 ==> InGeometry(g, r)
  {
    hide Chs;
    var sector, cylinder, head := a.sector, a.cylinder, a.head;
    if sector == g.sectors {
      sector := 1;
      head := (head + 1) % 0x100;
      if head == g.heads {
        head := 0;
        cylinder := (cylinder + 1) % 0x1_0000;
      }
    } else {
      sector := (sector + 1) % 0x1_0000;
    }
    r := Address(sector, cylinder, head, (a.lba + 1) % WORD);
    Stepped(g, a, r);
  }

  lemma Stepped(g: Geometry, a: Address, r: Address)
    requires Widths(a) && g.heads >= 1 && g.sectors >= 1
    requires a.sector != g.sectors ==>
               r.sector == (a.sector + 1) % 0x1_0000 && r.head == a.head && r.cylinder == a.cylinder
    requires a.sector == g.sectors ==> r.sector == 1
    requires a.sector == g.sectors && (a.head + 1) % 0x100 != g.heads ==>
               r.head == (a.head + 1) % 0x100 && r.cylinder == a.cylinder
    requires a.sector == g.sectors && (a.head + 1) % 0x100 == g.heads ==>
               r.head == 0 && r.cylinder == (a.cylinder + 1) % 0x1_0000
    ensures Chs(g, r) == Chs(g, a) + 1 <==> !Wraps(g, a)
  {
    if a.sector == g.sectors {
      if a.head == 0xff {
        HeadWraps(g, a, r);
      } else if a.head + 1 == g.heads {
        if a.cylinder == 0xffff {
          CylinderWraps(g, a, r);
        } else {
          ChsStep(a.cylinder, a.head, 0, g.heads, g.sectors);
        }
      } else {
        ChsStep(a.cylinder, a.head, 0, g.heads, g.sectors);
      }
    }
  }

  lemma HeadWraps(g: Geometry, a: Address, r: Address)
    requires g.heads >= 1 && g.sectors >= 1 && a.sector == g.sectors && a.head == 0xff
    requires r.sector == 1 && r.head == 0 && r.cylinder == a.cylinder
    ensures Chs(g, r) != Chs(g, a) + 1
  {
    var x := a.cylinder * g.heads;
    assert (x + 255) * g.sectors == x * g.sectors + 255 * g.sectors;
  }

  lemma CylinderWraps(g: Geometry, a: Address, r: Address)
    requires g.heads >= 1 && g.sectors >= 1 && a.sector == g.sectors && a.head + 1 == g.heads
    requires a.cylinder == 0xffff && r.sector == 1 && r.head == 0 && r.cylinder == 0
    ensures Chs(g, r) != Chs(g, a) + 1
  {
    ChsStep(a.cylinder, a.head, 0, g.heads, g.sectors);
    var x := 0x1_0000 * g.heads;
    assert (0xffff * g.heads + a.head + 1) == x;
    assert x * g.sectors > 0;
    assert Chs(g, a) + 1 == x * g.sectors;
    assert Chs(g, r) == 0;
  }

  // ---- from and to the registers ----------------------------------------------------------

  predicate LbaMode(t: TaskFile) {
    (t[6] / 0x40) % 2 == 1
  }

  /** The number of sectors asked for; 0 stands for 256. */
  function Count(t: TaskFile): (n: nat)
    ensures 1 <= n <= 256
  {
    if t[2] == 0 then 256 else t[2]
  }

  function Cylinder(t: TaskFile): (c: nat)
    ensures c < 0x1_0000
  {
    t[4] as int + 0x100 * t[5] as int
  }

  /** The address the registers stand for. */
  function Decoded(g: Geometry, t: TaskFile): (a: Address)
    ensures Widths(a)
  {
    var a := Address(t[3], Cylinder(t), t[6] % 16, 0);
    a.(lba := if LbaMode(t) then a.head * 0x100_0000 + a.cylinder * 0x100 + a.sector else Chs(g, a) % WORD)
  }

  /** Drv08_GetParams. */
  method GetParams(g: Geometry, t: TaskFile) returns (a: Address, count: nat, lbaMode: bool)
    ensures a == Decoded(g, t) && count == Count(t) && lbaMode == LbaMode(t)
  {
    count := t[2];
    var sector: nat, cylinder: nat, head: nat := t[3], t[4] as int + t[5] as int * 0x100, t[6] % 16;
    lbaMode := (t[6] / 0x40) % 2 == 1;
    if count == 0 {
      count := 0x100;
    }
    var lba: nat;
    if lbaMode {
      lba := head * 0x100_0000 + cylinder * 0x100 + sector;
    } else {
      lba := ((cylinder * g.heads + head) * g.sectors + sector - 1) % WORD;
    }
    a := Address(sector, cylinder, head, lba);
  }

  /**
   The first block from the register bytes. With bit 6 of byte 6 it is given by bytes 3, 4, 5 and
   the low half of byte 6, lowest first. Without it byte 3 is the sector, bytes 4 and 5 are the
   cylinder and the low half of byte 6 is the head.
   */
  function FirstBlock(g: Geometry, t: TaskFile): int {
    if t[6] / 64 % 2 == 1
    then t[3] as int + 0x100 * t[4] as int + 0x1_0000 * t[5] as int + 0x100_0000 * (t[6] % 16) as int
    else (((t[4] as int + 0x100 * t[5] as int) * g.heads + t[6] % 16) * g.sectors + t[3] - 1) % 0x1_0000_0000
  }

  /** The registers byte by byte; byte 2 is the number of sectors, 0 standing for 256. */
  lemma RegisterBytes(g: Geometry, t: TaskFile)
    ensures Count(t) == if t[2] == 0 then 256 else t[2]
    ensures LbaMode(t) <==> t[6] / 64 % 2 == 1
    ensures Decoded(g, t).lba == FirstBlock(g, t)
    ensures t[6] / 64 % 2 == 1 ==>
              FirstBlock(g, t)
              == t[3] as int + 0x100 * t[4] as int + 0x1_0000 * t[5] as int + 0x100_0000 * (t[6] % 16) as int
  {
  }

  /** Within the geometry the first block has the cylinder, head and sector of the bytes. */
  lemma ChsBytes(g: Geometry, t: TaskFile)
    requires t[6] / 64 % 2 == 0 && 1 <= t[3] <= g.sectors < 256 && t[6] % 16 < g.heads <= 16
    ensures var block := FirstBlock(g, t);
            && block % g.sectors == t[3] - 1 && block / g.sectors % g.heads == t[6] % 16
            && block / g.sectors / g.heads == t[4] as int + 0x100 * t[5] as int
  {
    BlockParts(g, t[4] as int + 0x100 * t[5] as int, t[6] % 16, t[3]);
  }

  /** Cylinder, head and sector are found again in the block they stand for. */
  lemma BlockParts(g: Geometry, c: nat, h: nat, s: nat)
    requires 1 <= s <= g.sectors < 256 && h < g.heads <= 16 && c < 0x1_0000
    ensures var block := (c * g.heads + h) * g.sectors + s - 1;
            && 0 <= block < 0x1_0000_0000
            && block % g.sectors == s - 1 && block / g.sectors % g.heads == h && block / g.sectors / g.heads == c
  {
    var row := c * g.heads + h;
    DivModUnique(row * g.sectors + s - 1, g.sectors, row, s - 1);
    DivModUnique(row, g.heads, c, h);
    MulMonotone(c, 0xffff, g.heads);
    MulMonotone(row, 0xf_ffff, g.sectors);
  }

  /** Drv08_UpdateParams: the registers with an address written back. */
  function Updated(t: TaskFile, a: Address, lbaMode: bool): TaskFile {
    var drive := t[6] - t[6] % 16;
    if lbaMode then
      t[3 := a.lba % 0x100][4 := (a.lba / 0x100) % 0x100][5 := (a.lba / 0x1_0000) % 0x100]
       [6 := drive + (a.lba / 0x100_0000) % 16]
    else
      t[3 := a.sector % 0x100][4 := a.cylinder % 0x100][5 := (a.cylinder / 0x100) % 0x100][6 := drive + a.head % 16]
  }

  /** What is written back, byte by byte: the address in the same places, and nothing else changed. */
  lemma UpdatedBytes(t: TaskFile, a: Address, lbaMode: bool)
    ensures var u := Updated(t, a, lbaMode);
            && u[0] == t[0] && u[1] == t[1] && u[2] == t[2] && u[7] == t[7] && u[6] / 16 == t[6] / 16
            && (lbaMode && a.lba < 0x1000_0000 ==>
                  u[3] as int + 0x100 * u[4] as int + 0x1_0000 * u[5] as int + 0x100_0000 * (u[6] % 16) as int == a.lba)
            && (!lbaMode && a.cylinder < 0x1_0000 ==>
                  u[3] == a.sector % 256 && u[4] as int + 0x100 * u[5] as int == a.cylinder && u[6] % 16 == a.head % 16)
  {
    HighHalf(t[6], if lbaMode then (a.lba / 0x100_0000) % 16 else a.head % 16);
    if lbaMode && a.lba < 0x1000_0000 {
      LbaBytes(a.lba);
    }
  }

  lemma HighHalf(v: byte, low: nat)
    requires low < 16
    ensures 0 <= v - v % 16 + low < 256
    ensures (v - v % 16 + low) / 16 == v / 16 && (v - v % 16 + low) % 16 == low
  {
  }

  /** The address names its block in both ways, within what the registers can hold. */
  predicate Names(g: Geometry, a: Address, lbaMode: bool) {
    if lbaMode then a.lba < LBA_LIMIT
    else InGeometry(g, a) && a.sector < 0x100 && a.head < 16 && a.cylinder < 0x1_0000 && Chs(g, a) == a.lba < WORD
  }

  /** What was written back is read again as the same block, in the same mode. */
  lemma UpdatedDecodes(g: Geometry, t: TaskFile, a: Address)
    requires Names(g, a, LbaMode(t))
    ensures LbaMode(Updated(t, a, LbaMode(t))) == LbaMode(t)
    ensures Decoded(g, Updated(t, a, LbaMode(t))).lba == a.lba
    ensures !LbaMode(t) ==> Decoded(g, Updated(t, a, LbaMode(t))) == a
  {
    hide Chs;
    var u := Updated(t, a, LbaMode(t));
    HighBits(t[6], if LbaMode(t) then (a.lba / 0x100_0000) % 16 else a.head);
    if LbaMode(t) {
      LbaBytes(a.lba);
    } else {
      assert Cylinder(u) == a.cylinder;
      assert u[3] == a.sector && u[6] % 16 == a.head;
      SameChs(g, Address(a.sector, a.cylinder, a.head, 0), a);
    }
  }

  lemma SameChs(g: Geometry, a: Address, b: Address)
    requires a.sector == b.sector && a.cylinder == b.cylinder && a.head == b.head
    ensures Chs(g, a) == Chs(g, b)
  {
  }

  lemma HighBits(v: byte, low: nat)
    requires low < 16
    ensures 0 <= v - v % 16 + low < 256
    ensures (v - v % 16 + low) % 16 == low
    ensures ((v - v % 16 + low) / 0x40) % 2 == (v / 0x40) % 2
  {
  }

  lemma LbaBytes(lba: nat)
    requires lba < LBA_LIMIT
    ensures (lba / 0x100_0000) % 16 * 0x100_0000
            + (((lba / 0x100) % 0x100) + 0x100 * ((lba / 0x1_0000) % 0x100)) * 0x100 + lba % 0x100 == lba
  {
    DivDiv(lba, 0x100, 0x100);
    DivDiv(lba, 0x1_0000, 0x100);
    Digits(lba, lba / 0x100, lba / 0x1_0000, lba / 0x100_0000);
  }

  /** A number from its bytes, given what is left above each. */
  lemma Digits(v: nat, a: nat, b: nat, c: nat)
    requires a == v / 0x100 && b == a / 0x100 && c == b / 0x100 && c < 16
    ensures c % 16 * 0x100_0000 + ((a % 0x100) + 0x100 * (b % 0x100)) * 0x100 + v % 0x100 == v
  {
  }

  /** Stepping keeps both names of the block together while the next block exists in the geometry. */
  lemma StepNames(g: Geometry, a: Address, r: Address, lbaMode: bool)
    requires Names(g, a, lbaMode) && Widths(a) && g.heads <= 16 && g.sectors < 0x100
    requires r.lba == (a.lba + 1) % WORD && Widths(r)
    requires Chs(g, r) == Chs(g, a) + 1 <==> !Wraps(g, a)
    requires InGeometry(g, a) ==> InGeometry(g, r)
    requires if lbaMode then a.lba + 1 < LBA_LIMIT else a.lba + 1 < 0x1_0000 * g.heads * g.sectors
    ensures Names(g, r, lbaMode)
  {
    if !lbaMode && Wraps(g, a) {
      LastBlock(g, a);
    }
    if !lbaMode {
      SmallDisk(g);
    }
  }

  lemma SmallDisk(g: Geometry)
    requires g.heads <= 16 && g.sectors < 0x100
    ensures 0x1_0000 * g.heads * g.sectors < WORD
  {
    var x := 0x1_0000 * g.heads;
    MulMonotone(x, 0x10_0000, g.sectors);
  }

  /** Only the very last block of the largest disk cannot be stepped from. */
  lemma LastBlock(g: Geometry, a: Address)
    requires InGeometry(g, a) && g.heads <= 16 && g.sectors < 0x100 && Widths(a) && Wraps(g, a)
    ensures Chs(g, a) + 1 == 0x1_0000 * g.heads * g.sectors
  {
    ChsStep(a.cylinder, a.head, 0, g.heads, g.sectors);
    assert a.cylinder * g.heads + a.head + 1 == 0x1_0000 * g.heads;
  }
}
