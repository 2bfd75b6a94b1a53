/**
 The ATA drive: four transfer commands with different burst shapes over one virtual disk made of
 a synthesized partition block prefix and an image file, or of the memory card itself, and the
 seek in the image that goes through a lazily filled table and the last position.
 */
module AtaDrive {
  import opened Bits
  import opened FatFile
  import opened AtaIndex
  import opened AtaParams
  import opened Sequences

  const MAX_READ_BURST: nat := 7
  const MAX_NUM_BLOCKS: nat := 4
  const NO_LBA: nat := 0xffff_ffff
  const MAX_SECTORS: nat := 0x80_0000

  datatype Format = Hdf | HdfNaked | Mmc | Iso

  /** What a host sees, as a value: prefix blocks, the card and the image. */
  datatype Disk = Disk(format: Format, offset: nat, rdb: seq<Sector>, card: seq<Sector>, image: seq<Sector>)

  predicate Exists(d: Disk, lba: nat) {
    |d.rdb| == 3 && if d.format == Mmc then lba + d.offset < |d.card| else lba < d.offset + |d.image|
  }

  function BlockOf(d: Disk, lba: nat): Sector
    requires Exists(d, lba)
  {
    if d.format == Mmc then d.card[lba + d.offset]
    else if lba < d.offset then d.rdb[lba % 3]
    else d.image[lba - d.offset]
  }

  /** A stretch of blocks; the prefix and the image meet seamlessly. */
  function Slice(d: Disk, lba: nat, n: nat): (s: seq<Sector>)
    requires n > 0 ==> Exists(d, lba + n - 1)
    ensures |s| == n
    decreases n
  {
    if n == 0 then [] else Slice(d, lba, n - 1) + [BlockOf(d, lba + n - 1)]
  }

  lemma {:induction false} SliceConcat(d: Disk, lba: nat, m: nat, n: nat)
    requires m + n > 0 ==> Exists(d, lba + m + n - 1)
    ensures m > 0 ==> Exists(d, lba + m - 1)
    ensures Slice(d, lba, m + n) == Slice(d, lba, m) + Slice(d, lba + m, n)
    decreases n
  {
    if n > 0 {
      SliceConcat(d, lba, m, n - 1);
    }
  }

  predicate Writable(d: Disk, lba: nat, n: nat) {
    |d.rdb| == 3
    && if d.format == Mmc then lba + d.offset + n <= |d.card| else d.offset <= lba && lba + n <= d.offset + |d.image|
  }

  /** The disk with a stretch of file-backed or card blocks replaced. */
  function Rewritten(d: Disk, lba: nat, data: seq<Sector>): Disk
    requires Writable(d, lba, |data|)
  {
    if d.format == Mmc then d.(card := Overlay(d.card, lba + d.offset, data))
    else d.(image := Overlay(d.image, lba - d.offset, data))
  }

  /** A rewritten stretch is read back, and every other block is as before. */
  lemma ReadAfterWrite(d: Disk, lba: nat, data: seq<Sector>, k: nat)
    requires Writable(d, lba, |data|) && Exists(d, k)
    ensures Exists(Rewritten(d, lba, data), k)
    ensures BlockOf(Rewritten(d, lba, data), k) == if lba <= k < lba + |data| then data[k - lba] else BlockOf(d, k)
  {
  }

  /** This sector is the block at an address. */
  predicate Shows(d: Disk, lba: int, s: Sector) {
    0 <= lba && Exists(d, lba) && s == BlockOf(d, lba)
  }

  /** So many blocks from an address on were sent, one after the other. */
  ghost predicate Sends(before: seq<Sector>, after: seq<Sector>, d: Disk, start: int, n: int) {
    && |after| == |before| + n && before <= after
    && forall i | |before| <= i < |after| :: Shows(d, start + i - |before|, after[i])
  }

  lemma {:induction false} SliceShows(d: Disk, lba: nat, n: nat, k: nat)
    requires k < n && Exists(d, lba + n - 1)
    ensures Shows(d, lba + k, Slice(d, lba, n)[k])
    decreases n
  {
    hide BlockOf;
    if k < n - 1 {
      SliceShows(d, lba, n - 1, k);
    }
  }

  lemma SliceSends(before: seq<Sector>, d: Disk, lba: nat, n: nat)
    requires n > 0 && Exists(d, lba + n - 1)
    ensures Sends(before, before + Slice(d, lba, n), d, lba, n)
  {
    hide Slice, Shows, Exists;
    var after := before + Slice(d, lba, n);
    forall i | |before| <= i < |after|
      ensures Shows(d, lba + i - |before|, after[i])
    {
      SliceShows(d, lba, n, i - |before|);
    }
  }

  /** So many blocks from an address on were replaced by those that came in, and no other block. */
  ghost predicate Takes(before: seq<Sector>, after: seq<Sector>, d: Disk, d': Disk, start: int, n: int) {
    && 0 <= start && 0 <= n <= |before| && after == before[n..]
    && (forall k | 0 <= k < n :: Shows(d', start + k, before[k]))
    && (forall k: nat | Exists(d, k) && !(start <= k < start + n) :: Shows(d', k, BlockOf(d, k)))
  }

  lemma RewrittenTakes(before: seq<Sector>, d: Disk, lba: nat, n: nat)
    requires n <= |before| && Writable(d, lba, n)
    ensures Takes(before, before[n..], d, Rewritten(d, lba, before[..n]), lba, n)
  {
    hide BlockOf, Rewritten;
    forall k: nat | Exists(d, k)
      ensures Exists(Rewritten(d, lba, before[..n]), k)
      ensures BlockOf(Rewritten(d, lba, before[..n]), k)
              == if lba <= k < lba + n then before[k - lba] else BlockOf(d, k)
    {
      ReadAfterWrite(d, lba, before[..n], k);
    }
  }

  /** The table holds, where it is filled, the clusters found by walking from the start. */
  ghost predicate IndexRight(index: seq<nat>, step: nat, file: File) {
    && |index| == INDEX_ENTRIES && file.csize > 0 && file.sectors <= |file.chain| * file.csize
    && forall i | 0 < i < INDEX_ENTRIES && 0 < i * step <= file.sectors && index[i] != NO_CLUSTER ::
         index[i] == file.ClusterAt(i * step)
  }

  class Drive {
    const format: Format
    const lbaOffset: nat
    const rdb: seq<Sector>
    const geometry: Geometry
    const readOnly: bool
    const file: File
    const indexSize: nat
    const index: array<nat>
    var card: seq<Sector>
    var mruLba: nat
    var mruCluster: nat
    var sectorsPerBlock: nat
    var taskFile: TaskFile
    var sent: seq<Sector>
    var incoming: seq<Sector>

    /** The remembered position, when there is one, has the cluster found by walking from the start. */
    ghost predicate MruRight()
      reads `mruLba, `mruCluster
    {
      mruLba != NO_LBA ==>
        && file.Fits() && mruLba <= file.sectors && mruCluster != NO_CLUSTER
        && (mruLba > 0 ==> mruCluster == file.ClusterAt(mruLba))
    }

    /** An image below 4 GB whose blocks all have a slot, and caches that agree with its clusters. */
    ghost predicate Seekable()
      reads `mruLba, `mruCluster, index, file`pos, file`clust
    {
      && file.Located() && file.sectors <= MAX_SECTORS
      && index.Length == INDEX_ENTRIES && indexSize >= MIN_INDEX_SIZE
      && file.sectors <= INDEX_ENTRIES * Step(indexSize)
      && IndexRight(index[..], Step(indexSize), file)
      && MruRight()
    }

    /** Mounting, with the empty table of Drv08_BuildHardfileIndex and no position remembered. */
    constructor (format: Format, lbaOffset: nat, rdb: seq<Sector>, geometry: Geometry, readOnly: bool,
                 file: File, fileSize: nat, card: seq<Sector>, taskFile: TaskFile)
      requires file.Located() && file.sectors == fileSize / 512 && fileSize < 0x1_0000_0000
      ensures IsIndexSize(indexSize, fileSize / 1024)
      ensures !(fileSize / 1024 == Pow2(indexSize) && fileSize % 1024 >= 512) ==> Seekable()
      ensures this.format == format && this.file == file && this.lbaOffset == lbaOffset && this.rdb == rdb
      ensures this.card == card && sectorsPerBlock == 0 && fresh(index) && mruLba == 0xffff_ffff
    {
      hide Seekable, Pow2, IsIndexSize, Step;
      this.format, this.lbaOffset, this.rdb, this.geometry, this.readOnly := format, lbaOffset, rdb, geometry, readOnly;
      this.file, this.card, this.taskFile := file, card, taskFile;
      var size := FindIndexSize(fileSize);
      indexSize := size;
      index := new nat[INDEX_ENTRIES](_ => NO_CLUSTER);
      mruLba, mruCluster, sectorsPerBlock, sent, incoming := NO_LBA, 0, 0, [], [];
      new;
      if !(fileSize / 1024 == Pow2(indexSize) && fileSize % 1024 >= 512) {
        EmptyIndex(fileSize);
      }
    }

    /** Nothing entered or remembered yet agrees with any file. */
    lemma EmptyIndex(fileSize: nat)
      requires file.Located() && file.sectors == fileSize / 512 && fileSize < 0x1_0000_0000
      requires IsIndexSize(indexSize, fileSize / 1024) && mruLba == NO_LBA
      requires !(fileSize / 1024 == Pow2(indexSize) && fileSize % 1024 >= 512)
      requires index.Length == INDEX_ENTRIES && forall i | 0 <= i < INDEX_ENTRIES :: index[i] == NO_CLUSTER
      ensures Seekable()
    {
      hide Step, Slot, Pow2;
      SlotsSuffice(fileSize, indexSize);
      BlocksFit(fileSize, indexSize);
      assert forall i | 0 <= i < INDEX_ENTRIES :: index[..][i] == NO_CLUSTER;
    }

    /** Enter the clusters of all slots from the last known one up to a slot. */
    method FillIndex(idx: nat)
      requires Seekable() && idx < INDEX_ENTRIES && idx * Step(indexSize) <= file.sectors
      modifies index, file`pos, file`clust
      ensures Seekable() && index[idx] != NO_CLUSTER
    {
      hide Step, IndexRight, MruRight;
      var start := idx;
      while start > 0
        invariant 0 <= start <= idx
      {
        if index[start] != NO_CLUSTER {
          break;
        }
        start := start - 1;
      }
      var step := Step(indexSize);
      var filepos := start * step;
      var i := start;
      while i <= idx
        invariant start <= i <= idx + 1 && filepos == i * step
        invariant Seekable()
        invariant i > start ==> index[i - 1] != NO_CLUSTER
      {
        MulMonotone(i, idx, step);
        FillSlot(i, filepos);
        NextMultiple(i, step);
        i, filepos := i + 1, filepos + step;
      }
    }

    /** Enter the cluster of one slot, unless it is known. */
    method FillSlot(i: nat, filepos: nat)
      requires Seekable() && i < INDEX_ENTRIES && filepos == i * Step(indexSize) <= file.sectors
      modifies index, file`pos, file`clust
      ensures Seekable() && index[i] != NO_CLUSTER
    {
      hide Step, IndexRight, MruRight;
      if index[i] == NO_CLUSTER {
        file.Seek(filepos);
        ghost var was := index[..];
        index[i] := file.clust;
        FillOne(was, Step(indexSize), file, i);
        assert index[..] == was[i := file.clust];
      }
    }

    /** Drv08_HardFileSeek: the image is positioned on a block, with the cluster of that position. */
    method HardFileSeek(lba0: nat) returns (ok: bool)
      requires format != Mmc ==> Seekable()
      requires format != Mmc && !(format == HdfNaked && lba0 < lbaOffset) ==>
                 lba0 - (if format == HdfNaked then lbaOffset else 0) < file.sectors
      modifies `mruLba, `mruCluster, index, file`pos, file`clust
      ensures format != Mmc ==> Seekable()
      ensures ok <==> !(format == HdfNaked && lba0 < lbaOffset)
      ensures ok && format != Mmc ==> file.pos == lba0 - (if format == HdfNaked then lbaOffset else 0)
    {
      hide Step, IndexRight;
      if format == Mmc {
        return true;
      }
      var lba := lba0;
      if format == HdfNaked {
        if lba < lbaOffset {
          return false;
        }
        lba := lba - lbaOffset;
      }
      SeekBlock(lba);
      return true;
    }

    /** The seek in the image itself. */
    method SeekBlock(lba: nat)
      requires Seekable() && lba < file.sectors
      modifies `mruLba, `mruCluster, index, file`pos, file`clust
      ensures Seekable() && file.pos == lba
    {
      hide Step, IndexRight;
      if lba == mruLba {
        file.pos := mruLba;
        file.clust := mruCluster;
      }
      var newCluster := lba / file.csize;
      var currentCluster := file.pos / file.csize;
      var step := Step(indexSize);
      BelowStep(lba, step);
      QuotientBounds(lba, step);
      var idx := Quotient(lba, step);
      if newCluster < currentCluster || newCluster > currentCluster + 1 || index[idx] == NO_CLUSTER {
        if index[idx] == NO_CLUSTER {
          FillIndex(idx);
        }
        EntryRight(index[..], step, file, idx);
        file.pos := idx * step;
        file.clust := index[idx];
      }
      file.Seek(lba);
      mruLba := file.pos;
      mruCluster := file.clust;
    }

    // ---- transfers ---------------------------------------------------------------------------

    /** The disk as the host sees it. */
    ghost function View(): Disk
      reads `card, file`disk
    {
      Disk(format, lbaOffset, rdb, card, if format == Mmc || !file.Sound() then [] else file.Contents())
    }

    /** Ready to transfer the block at an address: the image, if any, is positioned on it. */
    ghost predicate ReadyAt(next: nat)
      reads `mruLba, `mruCluster, index, file`pos, file`clust, file`disk
    {
      format != Mmc ==>
        Seekable() && file.Sound() && file.pos == if next < lbaOffset then 0 else next - lbaOffset
    }

    ghost predicate Usable()
      reads `mruLba, `mruCluster, index, file`pos, file`clust, file`disk
    {
      && |rdb| == 3 && geometry.heads >= 1 && geometry.sectors >= 1
      && (format != Mmc ==> Seekable() && file.Sound() && file.sectors > 0)
      && (format == Hdf || format == Iso ==> lbaOffset == 0)
    }

    /** The addresses of a transfer can be stepped through and written back without wrapping. */
    predicate Steppable(a: Address, n: nat, lbaMode: bool) {
      && Names(geometry, a, lbaMode) && geometry.heads <= 16 && geometry.sectors < 0x100
      && if lbaMode then a.lba + n <= LBA_LIMIT else a.lba + n <= 0x1_0000 * geometry.heads * geometry.sectors
    }

    /** The working address is block lba, and so are the registers where they can be. */
    ghost predicate Tracks(tf: TaskFile, a: Address, lba: nat, lbaMode: bool, steppable: bool, last: nat) {
      && geometry.heads >= 1 && geometry.sectors >= 1
      && Widths(a) && a.lba == lba <= last < WORD && LbaMode(tf) == lbaMode
      && (steppable ==> Steppable(a, last + 1 - lba, lbaMode))
    }

    /** One step of the address. */
    method StepAddress(a: Address, lbaMode: bool, ghost steppable: bool, ghost last: nat) returns (r: Address)
      requires Tracks(taskFile, a, a.lba, lbaMode, steppable, last) && a.lba < last
      ensures r.lba == a.lba + 1 && Tracks(taskFile, r, r.lba, lbaMode, steppable, last)
    {
      hide Chs, Wraps;
      r := IncParams(geometry, a);
      if steppable {
        Insides(geometry, a);
        StepNames(geometry, a, r, lbaMode);
      }
    }

    method CardReadSend(lba: nat, n: nat)
      requires lba + n <= |card|
      modifies `sent
      ensures sent == old(sent) + card[lba..lba + n]
    {
      sent := sent + card[lba..lba + n];
    }

    method FileReadSend(n: nat)
      requires file.Located() && file.Sound() && file.pos + n <= file.sectors
      modifies `sent, file`pos, file`clust
      ensures file.Located() && file.pos == old(file.pos) + n
      ensures sent == old(sent) + file.Contents()[old(file.pos)..old(file.pos) + n]
    {
      for k := 0 to n
        invariant file.Located() && file.pos == old(file.pos) + k
        invariant sent == old(sent) + file.Contents()[old(file.pos)..old(file.pos) + k]
      {
        var s := file.Read();
        sent := sent + [s];
      }
    }

    lemma ViewParts()
      ensures View().rdb == rdb && View().offset == lbaOffset && View().format == format && View().card == card
    {
    }

    method SendPrefix(lba: nat, n: nat)
      requires |rdb| == 3 && format != Mmc && lba + n <= lbaOffset
      modifies `sent
      ensures sent == old(sent) + Slice(View(), lba, n)
    {
      hide Slice, View;
      ghost var d := View();
      ViewParts();
      PrefixStart(d, lba);
      for x := 0 to n
        invariant View() == d && |d.rdb| == 3 && d.format != Mmc && d.rdb == rdb && d.offset == lbaOffset
        invariant x > 0 ==> Exists(d, lba + x - 1)
        invariant sent == old(sent) + Slice(d, lba, x)
      {
        PrefixStep(d, lba, x);
        sent := sent + [rdb[(lba + x) % 3]];
      }
    }

    /** One burst of a read, of at most seven: from the card, from the prefix up to its end, or from the image. */
    method SendBurst(lba: nat, wanted: nat) returns (n: nat)
      requires Usable() && ReadyAt(lba) && 1 <= wanted <= 7 && Exists(View(), lba + wanted - 1)
      modifies `sent, file`pos, file`clust
      ensures 1 <= n <= wanted && (wanted == 1 ==> n == 1)
      ensures Usable() && ReadyAt(lba + n) && View() == old(View())
      ensures sent == old(sent) + Slice(View(), lba, n)
    {
      hide IndexRight, Step, Slice, MruRight, BlockOf, File.Fits, File.Contents, Stored;
      n := wanted;
      if format == Mmc {
        CardReadSend(lba + lbaOffset, n);
        SliceOfCard(View(), lba, n);
      } else if lba < lbaOffset {
        if n > lbaOffset - lba {
          n := lbaOffset - lba;
        }
        SendPrefix(lba, n);
      } else {
        FileReadSend(n);
        SliceOfImage(View(), lba, n);
      }
    }

    /** The address the registers name now. */
    function Here(): (a: Address)
      reads `taskFile
      ensures Widths(a)
    {
      Decoded(geometry, taskFile)
    }

    /** The drive can serve a read of the addressed blocks. */
    ghost predicate CanRead()
      reads `taskFile, `card, `mruLba, `mruCluster, index, file`pos, file`clust, file`disk
    {
      Usable() && Here().lba + Count(taskFile) <= WORD && Exists(View(), Here().lba + Count(taskFile) - 1)
    }

    /** Position the image for a read; blocks of the prefix need none, but it starts behind them. */
    method SeekForRead(lba: nat) returns (ok: bool)
      requires Usable() && Exists(View(), lba)
      modifies `mruLba, `mruCluster, index, file`pos, file`clust
      ensures ok && Usable() && ReadyAt(lba) && View() == old(View())
    {
      hide IndexRight, Step;
      var lbaNaked := if lba < lbaOffset then lbaOffset else lba;
      ok := HardFileSeek(lbaNaked);
    }

    /**
     READ SECTORS: the addressed stretch of the virtual disk, block by block; the registers end up
     naming the last block.
     */
    method ReadSectors() returns (ok: bool)
      requires CanRead()
      modifies `taskFile, `sent, `mruLba, `mruCluster, index, file`pos, file`clust
      ensures ok && Usable() && View() == old(View())
      ensures sent == old(sent) + Slice(View(), old(Here()).lba, Count(old(taskFile)))
      ensures Sends(old(sent), sent, View(), FirstBlock(geometry, old(taskFile)),
                    if old(taskFile)[2] == 0 then 256 else old(taskFile)[2] as int)
      ensures Steppable(old(Here()), Count(old(taskFile)), LbaMode(old(taskFile))) ==>
                Here().lba == old(Here()).lba + Count(old(taskFile)) - 1 && LbaMode(taskFile) == LbaMode(old(taskFile))
    {
      hide Usable, ReadyAt, View, Tracks, Steppable, Decoded, CanRead, Slice, Exists, Count, LbaMode, Sends, FirstBlock;
      var a, count, lbaMode := GetParams(geometry, taskFile);
      ghost var lba0, n := a.lba, count;
      ghost var steppable := Steppable(a, n, lbaMode);
      BeginRead(a, n);
      ok := SeekForRead(a.lba);
      if !ok {
        return;
      }
      var first := true;
      while count > 0
        invariant 0 <= count <= n && first == (count == n)
        invariant Usable() && ReadyAt(lba0 + (n - count)) && View() == old(View())
        invariant a.lba == lba0 + (if first then 0 else n - count - 1)
        invariant Tracks(taskFile, a, a.lba, lbaMode, steppable, lba0 + n - 1)
        invariant steppable ==> Here().lba == a.lba
        invariant Exists(View(), lba0 + n - 1)
        invariant count < n ==> Exists(View(), lba0 + (n - count) - 1)
        invariant sent == old(sent) + Slice(View(), lba0, n - count)
      {
        if !first {
          TracksLba(taskFile, a, lbaMode, steppable, lba0 + n - 1);
          a := StepAddress(a, lbaMode, steppable, lba0 + n - 1);
          TracksLba(taskFile, a, lbaMode, steppable, lba0 + n - 1);
          UpdateParams(a, lbaMode, steppable, lba0 + n - 1);
        }
        first := false;
        ExistsBefore(View(), lba0 + n - 1, a.lba);
        SliceConcat(View(), lba0, n - count, 1);
        var burst := SendBurst(a.lba, 1);
        count := count - 1;
      }
      TracksLba(taskFile, a, lbaMode, steppable, lba0 + n - 1);
      RegisterBytes(geometry, old(taskFile));
      SliceSends(old(sent), View(), lba0, n);
    }

    /** What a read command starts from. */
    lemma BeginRead(a: Address, n: nat)
      requires CanRead() && a == Here() && n == Count(taskFile)
      ensures Usable() && n >= 1 && Exists(View(), a.lba) && Exists(View(), a.lba + n - 1)
      ensures |View().rdb| == 3
      ensures var mode := LbaMode(taskFile);
              Tracks(taskFile, a, a.lba, mode, Steppable(a, n, mode), a.lba + n - 1)
    {
      hide Seekable, Chs;
    }

    lemma TracksLba(tf: TaskFile, a: Address, lbaMode: bool, steppable: bool, last: nat)
      requires Tracks(tf, a, a.lba, lbaMode, steppable, last)
      ensures a.lba <= last && LbaMode(tf) == lbaMode && Tracks(tf, a, a.lba, lbaMode, steppable, last)
    {
    }

    /** The address moved over n sectors, the very first of a command not counting. */
    method StepBlock(a0: Address, n: nat, first0: bool, lbaMode: bool, ghost steppable: bool, ghost last: nat)
      returns (a: Address)
      requires Tracks(taskFile, a0, a0.lba, lbaMode, steppable, last)
      requires n >= 1 && a0.lba + n - (if first0 then 1 else 0) <= last
      ensures a.lba == a0.lba + n - (if first0 then 1 else 0)
      ensures Tracks(taskFile, a, a.lba, lbaMode, steppable, last)
    {
      hide Tracks;
      var i, first := n, first0;
      a := a0;
      while i > 0
        invariant 0 <= i <= n && first == (first0 && i == n)
        invariant a.lba == a0.lba + (n - i) - (if first0 && !first then 1 else 0)
        invariant Tracks(taskFile, a, a.lba, lbaMode, steppable, last)
      {
        i := i - 1;
        if !first {
          a := StepAddress(a, lbaMode, steppable, last);
        }
        first := false;
      }
    }

    /** The bursts that make up one block of a READ MULTIPLE. */
    method SendBlock(lba: nat, n: nat)
      requires Usable() && ReadyAt(lba) && n >= 1 && Exists(View(), lba + n - 1)
      modifies `sent, file`pos, file`clust
      ensures Usable() && ReadyAt(lba + n) && View() == old(View())
      ensures sent == old(sent) + Slice(View(), lba, n)
    {
      hide Usable, ReadyAt, View, Slice, Exists;
      var left, lbaNaked: nat := n, lba;
      while left > 0
        invariant 0 <= left <= n && lbaNaked == lba + (n - left)
        invariant Usable() && ReadyAt(lbaNaked) && View() == old(View())
        invariant left < n ==> Exists(View(), lba + (n - left) - 1)
        invariant sent == old(sent) + Slice(View(), lba, n - left)
      {
        var i := if left > MAX_READ_BURST then MAX_READ_BURST else left;
        DiskSound();
        ExistsBefore(View(), lba + n - 1, lbaNaked + i - 1);
        i := SendBurst(lbaNaked, i);
        ExistsBefore(View(), lba + n - 1, lbaNaked + i - 1);
        SliceConcat(View(), lba, n - left, i);
        left := left - i;
        lbaNaked := lbaNaked + i;
      }
    }

    lemma DiskSound()
      requires Usable()
      ensures |View().rdb| == 3
    {
    }

    /**
     READ MULTIPLE: refused until a block size was set; otherwise the same stretch and the same
     final registers as READ SECTORS, whatever the block size.
     */
    method ReadMultiple() returns (ok: bool)
      requires sectorsPerBlock > 0 ==> CanRead()
      modifies `taskFile, `sent, `mruLba, `mruCluster, index, file`pos, file`clust
      ensures ok <==> sectorsPerBlock > 0
      ensures !ok ==> sent == old(sent) && taskFile == old(taskFile)
      ensures ok ==> Usable() && View() == old(View())
      ensures ok ==> sent == old(sent) + Slice(View(), old(Here()).lba, Count(old(taskFile)))
      ensures ok ==> Sends(old(sent), sent, View(), FirstBlock(geometry, old(taskFile)),
                           if old(taskFile)[2] == 0 then 256 else old(taskFile)[2] as int)
      ensures ok && Steppable(old(Here()), Count(old(taskFile)), LbaMode(old(taskFile))) ==>
                Here().lba == old(Here()).lba + Count(old(taskFile)) - 1 && LbaMode(taskFile) == LbaMode(old(taskFile))
    {
      hide Usable, ReadyAt, View, Tracks, Steppable, Decoded, CanRead, Slice, Exists, Count, LbaMode, Sends, FirstBlock;
      if sectorsPerBlock == 0 {
        return false;
      }
      var a, count, lbaMode := GetParams(geometry, taskFile);
      ghost var steppable := Steppable(a, count, lbaMode);
      BeginRead(a, count);
      ok := SeekForRead(a.lba);
      if !ok {
        return;
      }
      SendBlocks(a, count, lbaMode, steppable);
      RegisterBytes(geometry, old(taskFile));
      SliceSends(old(sent), View(), a.lba, count);
    }

    /** The blocks of a READ MULTIPLE, one after the other. */
    method SendBlocks(a0: Address, n: nat, lbaMode: bool, ghost steppable: bool)
      requires Usable() && ReadyAt(a0.lba) && n > 0 && sectorsPerBlock > 0 && Exists(View(), a0.lba + n - 1)
      requires Tracks(taskFile, a0, a0.lba, lbaMode, steppable, a0.lba + n - 1) && (steppable ==> Here().lba == a0.lba)
      modifies `taskFile, `sent, file`pos, file`clust
      ensures Usable() && View() == old(View())
      ensures sent == old(sent) + Slice(View(), a0.lba, n)
      ensures steppable ==> Here().lba == a0.lba + n - 1 && LbaMode(taskFile) == lbaMode
    {
      hide Usable, ReadyAt, View, Tracks, Steppable, Decoded, Slice, Exists, LbaMode;
      ghost var lba0 := a0.lba;
      PrefixStart(View(), lba0);
      var a, count := a0, n;
      var lbaNaked: nat, first := a.lba, true;
      while count > 0
        invariant 0 <= count <= n && first == (count == n) && lbaNaked == lba0 + (n - count)
        invariant Usable() && ReadyAt(lbaNaked) && View() == old(View())
        invariant a.lba == lba0 + (if first then 0 else n - count - 1)
        invariant Tracks(taskFile, a, a.lba, lbaMode, steppable, lba0 + n - 1)
        invariant steppable ==> Here().lba == a.lba
        invariant Exists(View(), lba0 + n - 1)
        invariant count < n ==> Exists(View(), lba0 + (n - count) - 1)
        invariant sent == old(sent) + Slice(View(), lba0, n - count)
      {
        var block := if count > sectorsPerBlock then sectorsPerBlock else count;
        DiskSound();
        ExistsBefore(View(), lba0 + n - 1, lbaNaked + block - 1);
        SliceConcat(View(), lba0, n - count, block);
        a := SendNext(lbaNaked, block, a, first, lbaMode, steppable, lba0 + n - 1);
        first := false;
        count := count - block;
        lbaNaked := lbaNaked + block;
      }
      TracksLba(taskFile, a, lbaMode, steppable, lba0 + n - 1);
    }

    /** The registers behind one block of a READ MULTIPLE, and the block. */
    method SendNext(lba: nat, n: nat, a0: Address, first: bool, lbaMode: bool, ghost steppable: bool, ghost last: nat)
      returns (a: Address)
      requires Usable() && ReadyAt(lba) && n > 0 && Exists(View(), lba + n - 1)
      requires Tracks(taskFile, a0, a0.lba, lbaMode, steppable, last) && a0.lba + n - (if first then 1 else 0) <= last
      modifies `taskFile, `sent, file`pos, file`clust
      ensures Usable() && ReadyAt(lba + n) && View() == old(View())
      ensures sent == old(sent) + Slice(View(), lba, n)
      ensures a.lba == a0.lba + n - (if first then 1 else 0)
      ensures Tracks(taskFile, a, a.lba, lbaMode, steppable, last) && (steppable ==> Here().lba == a.lba)
    {
      hide Usable, ReadyAt, View, Tracks, Steppable, Decoded, Slice, Exists, LbaMode, Here;
      a := StepBlock(a0, n, first, lbaMode, steppable, last);
      UpdateParams(a, lbaMode, steppable, last);
      SendBlock(lba, n);
    }

    /** SET MULTIPLE MODE: the block size of the multiple commands; 0 disables them. */
    method SetMultipleMode()
      modifies `sectorsPerBlock
      ensures sectorsPerBlock == taskFile[2]
    {
      sectorsPerBlock := taskFile[2];
    }

    // ---- writes --------------------------------------------------------------------------------

    /** The writes the drive refuses: protected, into the synthesized prefix, or over the MBR. */
    predicate Refused(lba: nat) {
      readOnly || (format == HdfNaked && lba < lbaOffset) || (format == Mmc && lba == 0 && lbaOffset == 0)
    }

    /** The drive can serve a write of the addressed blocks, and the host sends the data. */
    ghost predicate CanWrite()
      reads `taskFile, `incoming, `card, `mruLba, `mruCluster, index, file`pos, file`clust, file`disk
    {
      && Usable() && Here().lba + Count(taskFile) <= WORD
      && Count(taskFile) <= |incoming|
      && (!Refused(Here().lba) ==> Writable(View(), Here().lba, Count(taskFile)))
    }

    method CardWrite(lba: nat, data: seq<Sector>)
      requires lba + |data| <= |card|
      modifies `card
      ensures card == Overlay(old(card), lba, data)
    {
      card := Overlay(card, lba, data);
    }

    method FileWrite(data: seq<Sector>)
      requires file.Located() && file.Sound() && file.pos + |data| <= file.sectors
      modifies file`disk, file`pos, file`clust
      ensures file.Located() && file.Sound() && file.pos == old(file.pos) + |data|
      ensures file.Contents() == Overlay(old(file.Contents()), old(file.pos), data)
    {
      for k := 0 to |data|
        invariant file.Located() && file.Sound() && file.pos == old(file.pos) + k
        invariant file.Contents() == Overlay(old(file.Contents()), old(file.pos), data[..k])
      {
        file.Write(data[k]);
        OverlayMore(old(file.Contents()), old(file.pos), data, k);
      }
      assert data[..|data|] == data;
    }

    /** Write some blocks at the position the drive is at. */
    method WriteBurst(lba: nat, data: seq<Sector>)
      requires Usable() && ReadyAt(lba) && Writable(View(), lba, |data|)
      modifies `card, file`disk, file`pos, file`clust
      ensures Usable() && ReadyAt(lba + |data|)
      ensures View() == Rewritten(old(View()), lba, data)
    {
      hide Seekable, Overlay, File.Sound, File.Contents;
      if format == Mmc {
        CardWrite(lba + lbaOffset, data);
      } else {
        WriteImage(lba, data);
      }
    }

    /** The same for blocks of the image. */
    method WriteImage(lba: nat, data: seq<Sector>)
      requires format != Mmc && Seekable() && file.Sound()
      requires lbaOffset <= lba && file.pos == lba - lbaOffset && file.pos + |data| <= file.sectors
      modifies file`disk, file`pos, file`clust
      ensures Seekable() && file.Sound() && file.pos == lba + |data| - lbaOffset
      ensures file.Contents() == Overlay(old(file.Contents()), lba - lbaOffset, data)
    {
      hide IndexRight, Step, MruRight, Overlay, File.Sound, File.Contents;
      FileWrite(data);
    }

    /** What a write command starts from. */
    lemma BeginWrite(a: Address, n: nat)
      requires CanWrite() && a == Here() && n == Count(taskFile)
      ensures Usable() && n >= 1 && n <= |incoming| && (!Refused(a.lba) ==> Writable(View(), a.lba, n))
      ensures var mode := LbaMode(taskFile);
              Tracks(taskFile, a, a.lba, mode, Steppable(a, n, mode), a.lba + n - 1)
    {
      hide Seekable, Chs;
    }

    /** Position the image for a write. */
    method SeekForWrite(lba: nat, ghost n: nat) returns (ok: bool)
      requires Usable() && n >= 1 && !readOnly && (!Refused(lba) ==> Writable(View(), lba, n))
      modifies `mruLba, `mruCluster, index, file`pos, file`clust
      ensures ok <==> !(format == HdfNaked && lba < lbaOffset)
      ensures Usable() && View() == old(View())
      ensures ok ==> ReadyAt(lba)
    {
      hide IndexRight, Step;
      ok := HardFileSeek(lba);
    }

    /**
     WRITE SECTORS: refused without effect, or the addressed stretch of the virtual disk replaced
     by the blocks the host sends and nothing else changed.
     */
    method WriteSectors() returns (ok: bool)
      requires CanWrite()
      modifies `taskFile, `incoming, `card, `mruLba, `mruCluster, index, file`disk, file`pos, file`clust
      ensures ok <==> !Refused(old(Here()).lba)
      ensures Usable() && (!ok ==> View() == old(View()) && incoming == old(incoming) && taskFile == old(taskFile))
      ensures ok ==> Count(old(taskFile)) <= |old(incoming)|
                     && Writable(old(View()), old(Here()).lba, Count(old(taskFile)))
                     && View() == Rewritten(old(View()), old(Here()).lba, old(incoming)[..Count(old(taskFile))])
                     && incoming == old(incoming)[Count(old(taskFile))..]
      ensures ok ==> Takes(old(incoming), incoming, old(View()), View(), FirstBlock(geometry, old(taskFile)),
                           if old(taskFile)[2] == 0 then 256 else old(taskFile)[2] as int)
      ensures ok && Steppable(old(Here()), Count(old(taskFile)), LbaMode(old(taskFile))) ==>
                Here().lba == old(Here()).lba + Count(old(taskFile)) - 1 && LbaMode(taskFile) == LbaMode(old(taskFile))
    {
      hide Usable, ReadyAt, View, Tracks, Steppable, Decoded, CanWrite, Writable, Rewritten, Count, LbaMode, Takes,
           FirstBlock;
      var a, count, lbaMode := GetParams(geometry, taskFile);
      ghost var steppable := Steppable(a, count, lbaMode);
      BeginWrite(a, count);
      if readOnly {
        return false;
      }
      ok := SeekForWrite(a.lba, count);
      if !ok {
        return;
      }
      if a.lba == 0 && format == Mmc && lbaOffset == 0 {
        return false;
      }
      TakeSectors(a, count, lbaMode, steppable);
      RegisterBytes(geometry, old(taskFile));
      RewrittenTakes(old(incoming), old(View()), a.lba, count);
    }

    /** The blocks of a WRITE SECTORS, one at a time. */
    method TakeSectors(a0: Address, n: nat, lbaMode: bool, ghost steppable: bool)
      requires Usable() && ReadyAt(a0.lba) && 0 < n <= |incoming|
      requires Tracks(taskFile, a0, a0.lba, lbaMode, steppable, a0.lba + n - 1) && (steppable ==> Here().lba == a0.lba)
      requires Writable(View(), a0.lba, n)
      modifies `taskFile, `incoming, `card, file`disk, file`pos, file`clust
      ensures Usable() && incoming == old(incoming)[n..]
      ensures View() == Rewritten(old(View()), a0.lba, old(incoming)[..n])
      ensures steppable ==> Here().lba == a0.lba + n - 1 && LbaMode(taskFile) == lbaMode
    {
      hide Usable, ReadyAt, View, Tracks, Steppable, Decoded, Writable, Rewritten, LbaMode;
      ghost var lba0, data := a0.lba, incoming;
      var a, count := a0, n;
      var lbaMmc: nat, first := a.lba, true;
      RewrittenNone(View(), lba0, n);
      while count > 0
        invariant 0 <= count <= n && first == (count == n) && lbaMmc == lba0 + (n - count)
        invariant Usable() && ReadyAt(lba0 + (n - count))
        invariant a.lba == lba0 + (if first then 0 else n - count - 1)
        invariant Tracks(taskFile, a, a.lba, lbaMode, steppable, lba0 + n - 1)
        invariant steppable ==> Here().lba == a.lba
        invariant incoming == data[n - count..]
        invariant Writable(old(View()), lba0, n - count)
        invariant View() == Rewritten(old(View()), lba0, data[..n - count])
      {
        ghost var k := n - count;
        RewrittenMore(old(View()), lba0, data, k, 1, n);
        assert incoming[..1] == data[k..k + 1];
        var buffer := Fetch(1);
        if !first {
          TracksLba(taskFile, a, lbaMode, steppable, lba0 + n - 1);
          a := StepAddress(a, lbaMode, steppable, lba0 + n - 1);
          UpdateParams(a, lbaMode, steppable, lba0 + n - 1);
        }
        first := false;
        count := count - 1;
        WriteBurst(lbaMmc, buffer);
        lbaMmc := lbaMmc + 1;
      }
      TracksLba(taskFile, a, lbaMode, steppable, lba0 + n - 1);
    }

    /** The pieces of at most four buffered sectors that make up one block of a WRITE MULTIPLE. */
    method ReceiveBlock(lba: nat, n: nat)
      requires Usable() && ReadyAt(lba) && n <= |incoming| && Writable(View(), lba, n)
      modifies `incoming, `card, file`disk, file`pos, file`clust
      ensures Usable() && ReadyAt(lba + n)
      ensures incoming == old(incoming)[n..]
      ensures View() == Rewritten(old(View()), lba, old(incoming)[..n])
    {
      hide Usable, ReadyAt, View, Writable, Rewritten;
      ghost var data := incoming;
      var left: nat, lbaMmc: nat := n, lba;
      RewrittenNone(View(), lba, n);
      while left > 0
        invariant 0 <= left <= n && lbaMmc == lba + (n - left)
        invariant Usable() && ReadyAt(lbaMmc)
        invariant incoming == data[n - left..]
        invariant Writable(old(View()), lba, n - left)
        invariant View() == Rewritten(old(View()), lba, data[..n - left])
      {
        var i := if left > MAX_NUM_BLOCKS then MAX_NUM_BLOCKS else left;
        var buffer := Fetch(i);
        RewrittenMore(old(View()), lba, data, n - left, i, n);
        assert buffer == data[n - left..n - left + i];
        WriteBurst(lbaMmc, buffer);
        left := left - i;
        lbaMmc := lbaMmc + i;
      }
    }

    /** Take sectors from the host into the buffer, which has room for four. */
    method Fetch(n: nat) returns (buffer: seq<Sector>)
      requires n <= |incoming| && n <= 4
      modifies `incoming
      ensures buffer == old(incoming)[..n] && incoming == old(incoming)[n..]
    {
      buffer := [];
      for x := 0 to n
        invariant buffer == old(incoming)[..x] && incoming == old(incoming)[x..]
      {
        buffer := buffer + [incoming[0]];
        incoming := incoming[1..];
      }
    }

    /** WRITE MULTIPLE: the same update as WRITE SECTORS, and refused as well until a block size was set. */
    method WriteMultiple() returns (ok: bool)
      requires CanWrite()
      modifies `taskFile, `incoming, `card, `mruLba, `mruCluster, index, file`disk, file`pos, file`clust
      ensures ok <==> !Refused(old(Here()).lba) && sectorsPerBlock > 0
      ensures Usable() && (!ok ==> View() == old(View()) && incoming == old(incoming) && taskFile == old(taskFile))
      ensures ok ==> Count(old(taskFile)) <= |old(incoming)|
                     && Writable(old(View()), old(Here()).lba, Count(old(taskFile)))
                     && View() == Rewritten(old(View()), old(Here()).lba, old(incoming)[..Count(old(taskFile))])
                     && incoming == old(incoming)[Count(old(taskFile))..]
      ensures ok ==> Takes(old(incoming), incoming, old(View()), View(), FirstBlock(geometry, old(taskFile)),
                           if old(taskFile)[2] == 0 then 256 else old(taskFile)[2] as int)
      ensures ok && Steppable(old(Here()), Count(old(taskFile)), LbaMode(old(taskFile))) ==>
                Here().lba == old(Here()).lba + Count(old(taskFile)) - 1 && LbaMode(taskFile) == LbaMode(old(taskFile))
    {
      hide Usable, ReadyAt, View, Tracks, Steppable, Decoded, CanWrite, Writable, Rewritten, Count, LbaMode, Takes,
           FirstBlock;
      var a, count, lbaMode := GetParams(geometry, taskFile);
      ghost var steppable := Steppable(a, count, lbaMode);
      BeginWrite(a, count);
      if readOnly {
        return false;
      }
      if sectorsPerBlock == 0 {
        return false;
      }
      ok := SeekForWrite(a.lba, count);
      if !ok {
        return;
      }
      if a.lba == 0 && format == Mmc && lbaOffset == 0 {
        return false;
      }
      TakeBlocks(a, count, lbaMode, steppable);
      RegisterBytes(geometry, old(taskFile));
      RewrittenTakes(old(incoming), old(View()), a.lba, count);
    }

    /** The blocks of a WRITE MULTIPLE, one after the other. */
    method TakeBlocks(a0: Address, n: nat, lbaMode: bool, ghost steppable: bool)
      requires Usable() && ReadyAt(a0.lba) && 0 < n <= |incoming| && sectorsPerBlock > 0
      requires Tracks(taskFile, a0, a0.lba, lbaMode, steppable, a0.lba + n - 1) && (steppable ==> Here().lba == a0.lba)
      requires Writable(View(), a0.lba, n)
      modifies `taskFile, `incoming, `card, file`disk, file`pos, file`clust
      ensures Usable() && incoming == old(incoming)[n..]
      ensures View() == Rewritten(old(View()), a0.lba, old(incoming)[..n])
      ensures steppable ==> Here().lba == a0.lba + n - 1 && LbaMode(taskFile) == lbaMode
    {
      hide Usable, ReadyAt, View, Tracks, Steppable, Decoded, Writable, Rewritten, LbaMode;
      ghost var lba0, data := a0.lba, incoming;
      var a, count := a0, n;
      var lbaMmc: nat, first := a.lba, true;
      RewrittenNone(View(), lba0, n);
      while count > 0
        invariant 0 <= count <= n && first == (count == n) && lbaMmc == lba0 + (n - count)
        invariant Usable() && ReadyAt(lbaMmc)
        invariant a.lba == lba0 + (if first then 0 else n - count - 1)
        invariant Tracks(taskFile, a, a.lba, lbaMode, steppable, lba0 + n - 1)
        invariant steppable ==> Here().lba == a.lba
        invariant incoming == data[n - count..]
        invariant Writable(old(View()), lba0, n - count)
        invariant View() == Rewritten(old(View()), lba0, data[..n - count])
      {
        var block := if count > sectorsPerBlock then sectorsPerBlock else count;
        RewrittenMore(old(View()), lba0, data, n - count, block, n);
        assert incoming[..block] == data[n - count..n - count + block];
        a := TakeBlock(lbaMmc, block, a, first, lbaMode, steppable, lba0 + n - 1);
        first := false;
        count := count - block;
        lbaMmc := lbaMmc + block;
      }
      TracksLba(taskFile, a, lbaMode, steppable, lba0 + n - 1);
    }

    /** One block of a WRITE MULTIPLE, and the registers behind it. */
    method TakeBlock(lba: nat, n: nat, a0: Address, first: bool, lbaMode: bool, ghost steppable: bool, ghost last: nat)
      returns (a: Address)
      requires Usable() && ReadyAt(lba) && 0 < n <= |incoming| && Writable(View(), lba, n)
      requires Tracks(taskFile, a0, a0.lba, lbaMode, steppable, last) && a0.lba + n - (if first then 1 else 0) <= last
      modifies `taskFile, `incoming, `card, file`disk, file`pos, file`clust
      ensures Usable() && ReadyAt(lba + n) && incoming == old(incoming)[n..]
      ensures View() == Rewritten(old(View()), lba, old(incoming)[..n])
      ensures a.lba == a0.lba + n - (if first then 1 else 0)
      ensures Tracks(taskFile, a, a.lba, lbaMode, steppable, last) && (steppable ==> Here().lba == a.lba)
    {
      hide Usable, ReadyAt, View, Tracks, Steppable, Decoded, Writable, Rewritten, LbaMode, Here;
      ReceiveBlock(lba, n);
      a := StepBlock(a0, n, first, lbaMode, steppable, last);
      UpdateParams(a, lbaMode, steppable, last);
    }

    /** Write the address back to the registers. */
    method UpdateParams(a: Address, lbaMode: bool, ghost steppable: bool, ghost last: nat)
      requires Tracks(taskFile, a, a.lba, lbaMode, steppable, last)
      modifies `taskFile
      ensures Tracks(taskFile, a, a.lba, lbaMode, steppable, last)
      ensures steppable ==> Here().lba == a.lba
    {
      hide Chs;
      if steppable {
        UpdatedDecodes(geometry, taskFile, a);
      }
      KeepsMode(taskFile, a, lbaMode);
      taskFile := Updated(taskFile, a, lbaMode);
    }
  }

  lemma PrefixStart(d: Disk, lba: nat)
    ensures Slice(d, lba, 0) == []
  {
  }

  lemma PrefixStep(d: Disk, lba: nat, x: nat)
    requires |d.rdb| == 3 && d.format != Mmc && lba + x < d.offset
    requires x > 0 ==> Exists(d, lba + x - 1)
    ensures Exists(d, lba + x) && Slice(d, lba, x + 1) == Slice(d, lba, x) + [d.rdb[(lba + x) % 3]]
  {
  }

  lemma OverlayMore(s: seq<Sector>, at: nat, data: seq<Sector>, k: nat)
    requires at + |data| <= |s| && k < |data|
    ensures Overlay(s, at, data[..k])[at + k := data[k]] == Overlay(s, at, data[..k + 1])
  {
    hide Overlay;
    var l, r := Overlay(s, at, data[..k])[at + k := data[k]], Overlay(s, at, data[..k + 1]);
    forall i | 0 <= i < |s|
      ensures l[i] == r[i]
    {
    }
  }

  lemma RewrittenNone(d: Disk, lba: nat, n: nat)
    requires Writable(d, lba, n)
    ensures Writable(d, lba, 0) && Rewritten(d, lba, []) == d
  {
    if d.format == Mmc {
      assert Overlay(d.card, lba + d.offset, []) == d.card;
    } else {
      assert Overlay(d.image, lba - d.offset, []) == d.image;
    }
  }

  /** Writing one stretch after the other is writing both. */
  lemma RewrittenMore(d: Disk, lba: nat, data: seq<Sector>, k: nat, m: nat, n: nat)
    requires Writable(d, lba, n) && k + m <= n <= |data|
    ensures Writable(d, lba, k) && Writable(d, lba, k + m)
    ensures Writable(Rewritten(d, lba, data[..k]), lba + k, m)
    ensures Rewritten(Rewritten(d, lba, data[..k]), lba + k, data[k..k + m]) == Rewritten(d, lba, data[..k + m])
  {
    hide Overlay;
    if d.format == Mmc {
      OverlayTwice(d.card, lba + d.offset, data, k, m);
    } else {
      OverlayTwice(d.image, lba - d.offset, data, k, m);
    }
  }

  lemma OverlayTwice(s: seq<Sector>, at: nat, data: seq<Sector>, k: nat, m: nat)
    requires k + m <= |data| && at + k + m <= |s|
    ensures Overlay(Overlay(s, at, data[..k]), at + k, data[k..k + m]) == Overlay(s, at, data[..k + m])
  {
    hide Overlay;
    var first, second := data[..k], data[k..k + m];
    var l, r := Overlay(Overlay(s, at, first), at + k, second), Overlay(s, at, data[..k + m]);
    forall i | 0 <= i < |s|
      ensures l[i] == r[i]
    {
      if at + k <= i < at + k + m {
        assert l[i] == second[i - at - k] == data[i - at];
      } else {
        assert l[i] == Overlay(s, at, first)[i];
      }
    }
  }

  lemma ExistsBefore(d: Disk, last: nat, lba: nat)
    requires Exists(d, last) && lba <= last
    ensures Exists(d, lba)
  {
  }

  lemma KeepsMode(t: TaskFile, a: Address, lbaMode: bool)
    ensures LbaMode(Updated(t, a, lbaMode)) == LbaMode(t)
  {
    HighBits(t[6], if lbaMode then (a.lba / 0x100_0000) % 16 else a.head % 16);
  }

  lemma Insides(g: Geometry, a: Address)
    ensures Names(g, a, false) ==> InGeometry(g, a)
  {
  }

  lemma SliceOfCard(d: Disk, lba: nat, n: nat)
    requires d.format == Mmc && n > 0 && Exists(d, lba + n - 1)
    ensures Slice(d, lba, n) == d.card[lba + d.offset..lba + d.offset + n]
    decreases n
  {
    if n > 1 {
      SliceOfCard(d, lba, n - 1);
    }
  }

  lemma SliceOfImage(d: Disk, lba: nat, n: nat)
    requires d.format != Mmc && lba >= d.offset && n > 0 && Exists(d, lba + n - 1)
    ensures Slice(d, lba, n) == d.image[lba - d.offset..lba - d.offset + n]
    decreases n
  {
    var image, at := d.image, lba - d.offset;
    assert image[at..at + n] == image[at..at + n - 1] + [image[at + n - 1]];
    if n > 1 {
      SliceOfImage(d, lba, n - 1);
    }
  }

  lemma BlocksFit(fileSize: nat, size: nat)
    requires size >= SECTOR_SHIFT && forall lba: nat :: lba < fileSize / 512 ==> Slot(lba, size) < INDEX_ENTRIES
    ensures fileSize / 512 <= INDEX_ENTRIES * Step(size)
  {
    hide Step;
    var n := fileSize / 512;
    if n > 0 {
      assert Slot(n - 1, size) < INDEX_ENTRIES;
      BelowStep(n - 1, Step(size));
    } else {
      MulNonNegative(INDEX_ENTRIES, Step(size));
    }
  }

  /** A slot filled from the position that was sought. */
  lemma FillOne(index: seq<nat>, step: nat, file: File, i: nat)
    requires IndexRight(index, step, file) && i < INDEX_ENTRIES && step > 0
    requires file.Located() && file.pos == i * step
    ensures IndexRight(index[i := file.clust], step, file)
  {
    assert i > 0 ==> i * step > 0;
  }

  /** A filled slot gives a consistent position. */
  lemma EntryRight(index: seq<nat>, step: nat, file: File, i: nat)
    requires IndexRight(index, step, file) && i < INDEX_ENTRIES && step > 0
    requires i * step <= file.sectors && index[i] != NO_CLUSTER
    ensures i * step > 0 ==> index[i] == file.ClusterAt(i * step)
  {
    if i == 0 {
      assert i * step == 0;
    }
  }
}
