/**
 A file on a FAT volume, as far as positions go: a chain of clusters, a position and the
 cluster that belongs to it. The driver also sets position and cluster behind the file system's
 back, so every operation says which cluster it needs. Positions count sectors of 512 bytes.
 */
module FatFile {
  import opened Bits

  type Sector = seq<byte>

  const NO_CLUSTER: nat := 0xffff_ffff

  lemma QuotientIs(x: nat, d: nat, q: nat)
    requires d > 0 && q * d <= x < q * d + d
    ensures x / d == q
  {
    DivModUnique(x, d, q, x - q * d);
  }

  lemma QuotientBounds(x: nat, d: nat)
    requires d > 0
    ensures (x / d) * d <= x < (x / d) * d + d
  {
  }

  lemma QuotientBelow(x: nat, d: nat, n: nat)
    requires d > 0 && x < n * d
    ensures x / d < n
  {
    QuotientBounds(x, d);
    if x / d >= n {
      MulMonotone(n, x / d, d);
    }
  }

  /** The clusters of a file are different, linked one to the next, and enough for its sectors. */
  ghost predicate Chained(chain: seq<nat>, csize: nat, sectors: nat, fat: map<nat, nat>) {
    && csize > 0
    && sectors <= |chain| * csize
    && (forall i, j | 0 <= i < j < |chain| :: chain[i] != chain[j])
    && (forall i | 0 <= i < |chain| - 1 :: chain[i] in fat && fat[chain[i]] == chain[i + 1])
    && (forall i | 0 <= i < |chain| :: chain[i] != 0xffff_ffff)
  }

  /** Every cluster of the chain has its sectors. */
  ghost predicate Stored(chain: seq<nat>, csize: nat, disk: map<nat, seq<Sector>>) {
    forall i | 0 <= i < |chain| :: chain[i] in disk && |disk[chain[i]]| == csize
  }

  /** Sector k of the file. */
  ghost function SectorOf(chain: seq<nat>, csize: nat, disk: map<nat, seq<Sector>>, k: nat): Sector
    requires csize > 0 && Stored(chain, csize, disk) && k < |chain| * csize
  {
    QuotientBelow(k, csize, |chain|);
    disk[chain[k / csize]][k % csize]
  }

  /** All sectors of the file, in order. */
  ghost function ContentsOf(chain: seq<nat>, csize: nat, n: nat, disk: map<nat, seq<Sector>>): (c: seq<Sector>)
    requires csize > 0 && Stored(chain, csize, disk) && n <= |chain| * csize
    ensures |c| == n && forall k | 0 <= k < n :: c[k] == SectorOf(chain, csize, disk, k)
  {
    seq(n, k requires 0 <= k < n => SectorOf(chain, csize, disk, k))
  }

  /** Replacing one sector in its cluster replaces that sector of the file and no other. */
  lemma WriteOne(chain: seq<nat>, csize: nat, n: nat, fat: map<nat, nat>, disk: map<nat, seq<Sector>>, p: nat, s: Sector)
    requires Chained(chain, csize, n, fat) && Stored(chain, csize, disk) && p < n
    ensures p / csize < |chain|
    ensures var c := chain[p / csize];
            var disk' := disk[c := disk[c][p % csize := s]];
            && Stored(chain, csize, disk')
            && ContentsOf(chain, csize, n, disk') == ContentsOf(chain, csize, n, disk)[p := s]
  {
    QuotientBelow(p, csize, |chain|);
    var c := chain[p / csize];
    var disk' := disk[c := disk[c][p % csize := s]];
    forall k | 0 <= k < n
      ensures SectorOf(chain, csize, disk', k) == if k == p then s else SectorOf(chain, csize, disk, k)
    {
      OtherSector(chain, csize, n, fat, disk, p, s, k);
    }
  }

  lemma OtherSector(chain: seq<nat>, csize: nat, n: nat, fat: map<nat, nat>, disk: map<nat, seq<Sector>>,
                    p: nat, s: Sector, k: nat)
    requires Chained(chain, csize, n, fat) && Stored(chain, csize, disk) && p < n && k < n
    requires p / csize < |chain|
    ensures var c := chain[p / csize];
            var disk' := disk[c := disk[c][p % csize := s]];
            && Stored(chain, csize, disk')
            && SectorOf(chain, csize, disk', k) == if k == p then s else SectorOf(chain, csize, disk, k)
  {
    QuotientBelow(k, csize, |chain|);
    if k != p {
      OtherPlace(k, p, csize);
    }
    OtherCell(chain, csize, disk, p / csize, p % csize, k / csize, k % csize, s);
  }

  lemma OtherCell(chain: seq<nat>, csize: nat, disk: map<nat, seq<Sector>>, q: nat, r: nat, i: nat, j: nat, s: Sector)
    requires forall x, y | 0 <= x < y < |chain| :: chain[x] != chain[y]
    requires Stored(chain, csize, disk) && q < |chain| && r < csize && i < |chain| && j < csize
    ensures var disk' := disk[chain[q] := disk[chain[q]][r := s]];
            Stored(chain, csize, disk') && disk'[chain[i]][j] == if i == q && j == r then s else disk[chain[i]][j]
  {
  }

  lemma OtherPlace(k: nat, p: nat, d: nat)
    requires d > 0 && k != p
    ensures k / d != p / d || k % d != p % d
  {
    if k / d == p / d && k % d == p % d {
      SamePlace(k, p, d);
    }
  }

  lemma SamePlace(k: nat, p: nat, d: nat)
    requires d > 0 && k / d == p / d && k % d == p % d
    ensures k == p
  {
    assert k == (k / d) * d + k % d && p == (p / d) * d + p % d;
  }

  class File {
    const chain: seq<nat>
    const csize: nat
    const sectors: nat
    const fat: map<nat, nat>
    var disk: map<nat, seq<Sector>>
    var pos: nat
    var clust: nat

    /** A file just opened. */
    constructor (chain: seq<nat>, csize: nat, sectors: nat, fat: map<nat, nat>, disk: map<nat, seq<Sector>>)
      requires Chained(chain, csize, sectors, fat) && Stored(chain, csize, disk)
      ensures Located() && Sound() && pos == 0 && Contents() == ContentsOf(chain, csize, sectors, disk)
      ensures this.csize == csize && this.sectors == sectors
    {
      this.chain, this.csize, this.sectors, this.fat, this.disk := chain, csize, sectors, fat, disk;
      pos, clust := 0, 0;
    }

    /** The cluster found by walking the chain from the start of the file to a position. */
    ghost function ClusterAt(p: nat): nat
      requires csize > 0 && 0 < p <= |chain| * csize
    {
      QuotientBelow(p - 1, csize, |chain|);
      chain[(p - 1) / csize]
    }

    ghost predicate Fits() {
      Chained(chain, csize, sectors, fat)
    }

    /** The current cluster is the right one; at the start of the file it does not matter. */
    ghost predicate Located()
      reads `pos, `clust
    {
      && Fits()
      && pos <= sectors
      && clust != NO_CLUSTER
      && (pos > 0 ==> clust == ClusterAt(pos))
    }

    ghost predicate Sound()
      reads `disk
    {
      Fits() && Stored(chain, csize, disk)
    }

    ghost function Contents(): (c: seq<Sector>)
      requires Sound()
      reads `disk
      ensures |c| == sectors
    {
      ContentsOf(chain, csize, sectors, disk)
    }

    /** FF_Seek: from the current cluster when that is not behind the target, else from the start. */
    method Seek(target: nat)
      requires Located() && target <= sectors
      modifies `pos, `clust
      ensures Located() && pos == target
    {
      if target == pos {
        return;
      }
      var from, ofs := pos, target;
      pos := 0;
      if ofs == 0 {
        return;
      }
      QuotientBelow(target - 1, csize, |chain|);
      ghost var q := 0;
      if from > 0 && (ofs - 1) / csize >= (from - 1) / csize {
        q := (from - 1) / csize;
        SameOrLater(from, target);
        pos := (from - 1) / csize * csize;
        ofs := ofs - pos;
      } else {
        clust := chain[0];
      }
      Follow(ofs, target, q);
    }

    lemma SameOrLater(from: nat, target: nat)
      requires csize > 0 && from > 0 && target > 0 && (target - 1) / csize >= (from - 1) / csize
      ensures (from - 1) / csize * csize < target
    {
      QuotientBounds(target - 1, csize);
      MulMonotone((from - 1) / csize, (target - 1) / csize, csize);
    }

    /** The cluster following loop. */
    method Follow(ofs0: nat, ghost target: nat, ghost q0: nat)
      requires Fits() && 0 < target <= sectors && q0 < |chain|
      requires pos == q0 * csize && pos + ofs0 == target && ofs0 > 0
      requires clust == chain[q0]
      modifies `pos, `clust
      ensures Located() && pos == target
    {
      var ofs := ofs0;
      ghost var q := q0;
      while ofs > csize
        invariant q < |chain| && pos == q * csize && pos + ofs == target && ofs > 0
        invariant clust == chain[q]
        decreases ofs
      {
        MoreClusters(target, q);
        ofs, pos := ofs - csize, pos + csize;
        clust := fat[clust];
        q := q + 1;
      }
      QuotientIs(target - 1, csize, q);
      pos := pos + ofs;
    }

    lemma MoreClusters(target: nat, q: nat)
      requires csize > 0 && target <= |chain| * csize && q < |chain| && target > q * csize + csize
      ensures q + 1 < |chain| && (q + 1) * csize == q * csize + csize
    {
      assert (q + 1) * csize == q * csize + csize;
    }

    /** The cluster of the next sector: at a cluster boundary the chain is followed. */
    method Advance()
      requires Located() && pos < sectors
      modifies `clust
      ensures pos / csize < |chain| && clust == chain[pos / csize] && ClusterAt(pos + 1) == clust
    {
      QuotientBelow(pos, csize, |chain|);
      if pos % csize == 0 {
        if pos == 0 {
          clust := chain[0];
        } else {
          PreviousCluster(pos, csize);
          clust := fat[clust];
        }
      } else {
        SameCluster(pos, csize);
      }
    }

    method Read() returns (s: Sector)
      requires Located() && Sound() && pos < sectors
      modifies `pos, `clust
      ensures Located() && pos == old(pos) + 1
      ensures s == Contents()[old(pos)]
    {
      Advance();
      s := disk[clust][pos % csize];
      pos := pos + 1;
    }

    method Write(s: Sector)
      requires Located() && Sound() && pos < sectors
      modifies `disk, `pos, `clust
      ensures Located() && Sound() && pos == old(pos) + 1
      ensures Contents() == old(Contents())[old(pos) := s]
    {
      hide Chained, Stored, ContentsOf;
      FitsFacts();
      Advance();
      Replace(s);
      pos := pos + 1;
    }

    lemma FitsFacts()
      requires Fits()
      ensures csize > 0 && sectors <= |chain| * csize
      ensures forall i | 0 <= i < |chain| :: chain[i] != NO_CLUSTER
    {
    }

    /** The sector at the position in the current cluster. */
    method Replace(s: Sector)
      requires Sound() && pos < sectors && pos / csize < |chain| && clust == chain[pos / csize]
      modifies `disk
      ensures Sound() && Contents() == old(Contents())[pos := s]
    {
      hide ContentsOf, SectorOf;
      WriteOne(chain, csize, sectors, fat, disk, pos, s);
      disk := disk[clust := disk[clust][pos % csize := s]];
    }
  }

  lemma PreviousCluster(p: nat, d: nat)
    requires d > 0 && p > 0 && p % d == 0
    ensures (p - 1) / d == p / d - 1 && p / d > 0
  {
    var q := p / d;
    QuotientBounds(p, d);
    assert p == q * d;
    assert q > 0;
    assert (q - 1) * d == q * d - d;
    QuotientIs(p - 1, d, q - 1);
  }

  lemma SameCluster(p: nat, d: nat)
    requires d > 0 && p % d != 0
    ensures p > 0 && (p - 1) / d == p / d
  {
    QuotientBounds(p, d);
    assert p != (p / d) * d;
    QuotientIs(p - 1, d, p / d);
  }
}
