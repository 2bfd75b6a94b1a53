/**
 The table of 1024 clusters that lets a hard file be entered near any block: how wide a step of
 the table is for a file size, and when 1024 steps are enough.
 */
module AtaIndex {
  import opened Bits
  import opened FatFile

  const INDEX_ENTRIES: nat := 1024
  const MIN_INDEX_SIZE: nat := 16
  const SECTOR_SHIFT: nat := 9

  /** The sectors one step covers, for a step of 2^size bytes. */
  function Step(size: nat): (n: nat)
    requires size >= SECTOR_SHIFT
    ensures n >= 1
  {
    Pow2(size - SECTOR_SHIFT)
  }

  /** The smallest step from 64 kB up of which 1024 reach the file size, given in 1024ths of it. */
  ghost predicate IsIndexSize(size: nat, share: nat) {
    && size >= 16
    && Pow2(size) >= share
    && (size > 16 ==> Pow2(size - 1) < share)
  }

  /** Drv08_BuildHardfileIndex, the step size. */
  method FindIndexSize(fileSize: nat) returns (size: nat)
    ensures IsIndexSize(size, fileSize / 1024)
  {
    hide Pow2;
    size := MIN_INDEX_SIZE;
    var i, j := fileSize / 1024, Pow2(MIN_INDEX_SIZE);
    while j < i
      invariant size >= MIN_INDEX_SIZE && j == Pow2(size)
      invariant size > MIN_INDEX_SIZE ==> Pow2(size - 1) < i
      decreases i - j
    {
      Pow2Next(size);
      j := j * 2;
      size := size + 1;
    }
  }

  lemma Pow2Next(n: nat)
    ensures Pow2(n + 1) == 2 * Pow2(n)
  {
  }

  lemma StepBytes(size: nat)
    requires size >= SECTOR_SHIFT
    ensures Step(size) * 512 == Pow2(size)
  {
    Pow2Add(size - SECTOR_SHIFT, SECTOR_SHIFT);
    SmallPowers();
  }

  /** The index slot of a block. */
  function Slot(lba: nat, size: nat): nat
    requires size >= SECTOR_SHIFT
  {
    Quotient(lba, Step(size))
  }

  function Quotient(a: nat, d: nat): nat
    requires d > 0
  {
    a / d
  }

  /**
   Every block of the file has a slot in the table, unless the 1024th part of the size is itself
   the step and there is half a kilobyte left over.
   */
  lemma SlotsSuffice(fileSize: nat, size: nat)
    requires IsIndexSize(size, fileSize / 1024)
    ensures (forall lba: nat :: lba < fileSize / 512 ==> Slot(lba, size) < 1024)
            <==> !(fileSize / 1024 == Pow2(size) && fileSize % 1024 >= 512)
    ensures fileSize % 1024 == 0 ==> forall lba: nat :: lba < fileSize / 512 ==> Slot(lba, size) < 1024
  {
    hide Pow2;
    var step := Step(size);
    StepBytes(size);
    var blocks := fileSize / 512;
    Halves(fileSize);
    forall lba: nat | lba < blocks
      ensures Slot(lba, size) < INDEX_ENTRIES <==> lba < INDEX_ENTRIES * step
    {
      BelowStep(lba, step);
    }
    if fileSize / 1024 == Pow2(size) && fileSize % 1024 >= 512 {
      var last := INDEX_ENTRIES * step;
      assert last == blocks - 1;
      assert Slot(last, size) >= INDEX_ENTRIES;
    }
  }

  /** A size for which the last block has none: 64 MB and half a kilobyte. */
  lemma LastBlockBeyond()
    ensures IsIndexSize(16, (0x400_0000 + 512) / 1024)
    ensures Slot((0x400_0000 + 512) / 512 - 1, 16) == 1024
  {
    StepBytes(16);
    Pow2Sixteen();
    QuotientIs(0x2_0000, 128, INDEX_ENTRIES);
  }

  lemma Halves(fileSize: nat)
    ensures fileSize / 512 == 2 * (fileSize / 1024) + (if fileSize % 1024 >= 512 then 1 else 0)
  {
  }

  lemma BelowStep(lba: nat, step: nat)
    requires step > 0
    ensures lba / step < INDEX_ENTRIES <==> lba < INDEX_ENTRIES * step
  {
    QuotientBounds(lba, step);
    var q := lba / step;
    if q < INDEX_ENTRIES {
      MulMonotone(q + 1, INDEX_ENTRIES, step);
    } else {
      MulMonotone(INDEX_ENTRIES, q, step);
    }
  }
}
