/**
 A sector on an Amiga track in bytes: what the drive sends for a read request, at which position,
 and which bytes of a received sector decide where it goes and what is stored.
 */
module AdfNumbers {
  import opened Mfm
  import opened AdfTrack
  import opened AdfDrive
  import opened Sequences

  /** The clock bit between two data bits is set exactly when both are zero; one byte reaches into the next. */
  lemma ClockRule(d: octet, l: octet)
    ensures Encode(d, l) == (d & 0x55) | (0xaa & !(((d & 0x55) << 1) | ((d & 0x55) >> 1) | (l << 7)))
  {
  }

  lemma SyncWords(hi: octet, lo: octet)
    ensures SyncFor(hi, lo)
            == if (hi, lo) in {(0x00, 0x00), (0x89, 0x14), (0xa1, 0x44)} then (0x44, 0x89) else (hi, lo)
  {
  }

  /** A sector has 512 bytes, a track eleven of them. */
  lemma PlaceInImage(track: octet, sector: octet)
    ensures Offset(track, sector) == 512 * (11 * track as int + sector as int)
  {
  }

  /** What is sent of a sector, byte by byte, from its preamble to the end of its data. */
  ghost predicate SentAs(e: seq<octet>, data: seq<octet>, sector: octet, track: octet, hi: octet, lo: octet) {
    && |e| == 1088 && |data| == 512
    && e[4] == e[6] == hi && e[5] == e[7] == lo && InfoAs(e, sector, track)
    && (forall k | 0 <= k < 4 || 16 <= k < 52 || 56 <= k < 60 :: e[k] == 0xaa)
    && (forall k | 8 <= k < 16 :: ClockedAfter(e[k], e[k - 1]))
    && SumsAs(e)
    && (forall k | 64 <= k < 576 :: e[k] == 0xaa | (data[k - 64] >> 1))
    && (forall k | 576 <= k < 1088 :: e[k] == 0xaa | data[k - 576])
  }

  /** The clock bits of a byte are what its data bits and the byte before ask for. */
  predicate ClockedAfter(x: octet, l: octet) {
    x & 0xaa == 0xaa & !(((x & 0x55) << 1) | ((x & 0x55) >> 1) | (l << 7))
  }

  /** The checksums of the header and of the data, over every fourth byte, all clock bits set. */
  predicate SumsAs(e: seq<octet>)
    requires |e| == 1088
  {
    && (forall k | 52 <= k < 56 :: e[k] == 0xaa | (e[k - 44] ^ e[k - 40]))
    && (forall k | 60 <= k < 64 :: e[k] & 0xaa == 0xaa && e[k] & 0x55 == Lane(e, k + 4, 256) & 0x55)
  }

  /** The header: FF, track, sector and sectors to the gap, the odd bits of all before the even bits of all. */
  predicate InfoAs(e: seq<octet>, sector: octet, track: octet)
    requires |e| >= 16
  {
    && e[8] & 0x55 == 0x55 && e[12] & 0x55 == 0x55
    && e[9] & 0x55 == (track >> 1) & 0x55 && e[13] & 0x55 == track & 0x55
    && e[10] & 0x55 == (sector >> 1) & 0x55 && e[14] & 0x55 == sector & 0x55
    && e[11] & 0x55 == ((11 - sector) >> 1) & 0x55 && e[15] & 0x55 == (11 - sector) & 0x55
  }

  /** A byte of a sector behind its preamble. */
  function Sector(data: seq<octet>, sector: octet, track: octet, hi: octet, lo: octet): (e: seq<octet>)
    requires |data| == 512
    ensures |e| == 1088
  {
    Lead(hi, lo) + Body(data, sector, track, lo)
  }

  lemma SectorAt(data: seq<octet>, sector: octet, track: octet, hi: octet, lo: octet, k: nat)
    requires |data| == 512 && k < 1088
    ensures var e := Sector(data, sector, track, hi, lo);
            e[k] == if k < 8 then [0xaa, 0xaa, 0xaa, 0xaa, hi, lo, hi, lo][k] else Body(data, sector, track, lo)[k - 8]
  {
    hide Body;
  }

  lemma {:induction false} EncodedAt(bytes: seq<octet>, l: octet, k: nat)
    requires k < |bytes|
    ensures EncodeAll(bytes, l)[k] == Encode(bytes[k], if k == 0 then l else EncodeAll(bytes, l)[k - 1])
  {
    hide Encode;
    if k < |bytes| - 1 {
      EncodedAt(bytes[..|bytes| - 1], l, k);
    }
  }

  /** The header bytes behind the sync words. */
  lemma HeaderSent(data: seq<octet>, sector: octet, track: octet, hi: octet, lo: octet, k: nat)
    requires |data| == 512 && 8 <= k < 16
    ensures var e := Sector(data, sector, track, hi, lo);
            && e[k] & 0x55 == Info(sector, track)[k - 8] & 0x55
            && ClockedAfter(e[k], e[k - 1])
  {
    hide Body, EncodeAll, Encode, HeaderSum, DataSum, OddByte, Clocked, Sector;
    var info := Info(sector, track);
    SectorAt(data, sector, track, hi, lo, k);
    SectorAt(data, sector, track, hi, lo, k - 1);
    BodyAt(data, sector, track, lo, k - 8);
    if k > 8 {
      BodyAt(data, sector, track, lo, k - 9);
    }
    EncodedAt(info, lo, k - 8);
    var l := if k == 8 then lo else EncodeAll(info, lo)[k - 9];
    ClocksOf(info[k - 8], l, Encode(info[k - 8], l));
  }

  lemma ClocksOf(d: octet, l: octet, x: octet)
    requires x == Encode(d, l)
    ensures x & 0x55 == d & 0x55
    ensures ClockedAfter(x, l)
  {
    hide Encode;
    ClockRule(d, l);
  }

  lemma InfoSent(data: seq<octet>, sector: octet, track: octet, hi: octet, lo: octet)
    requires |data| == 512
    ensures InfoAs(Sector(data, sector, track, hi, lo), sector, track)
  {
    hide Sector;
    HeaderSent(data, sector, track, hi, lo, 8);
    HeaderSent(data, sector, track, hi, lo, 9);
    HeaderSent(data, sector, track, hi, lo, 10);
    HeaderSent(data, sector, track, hi, lo, 11);
    HeaderSent(data, sector, track, hi, lo, 12);
    HeaderSent(data, sector, track, hi, lo, 13);
    HeaderSent(data, sector, track, hi, lo, 14);
    HeaderSent(data, sector, track, hi, lo, 15);
  }

  /** The checksum bytes. */
  lemma SumsSent(data: seq<octet>, sector: octet, track: octet, hi: octet, lo: octet, i: nat)
    requires |data| == 512 && i < 4
    ensures var e := Sector(data, sector, track, hi, lo);
            && e[52 + i] == 0xaa | (e[8 + i] ^ e[12 + i])
            && e[60 + i] & 0xaa == 0xaa && e[60 + i] & 0x55 == Lane(e, 64 + i, 256) & 0x55
  {
    hide Body, EncodeAll, Lane, DataSum, OddByte, Sector, Decode;
    var rx := Body(data, sector, track, lo);
    forall k | 8 <= k < 1088
      ensures Sector(data, sector, track, hi, lo)[k] == rx[k - 8]
    {
      SectorAt(data, sector, track, hi, lo, k);
    }
    BodyAt(data, sector, track, lo, i);
    BodyAt(data, sector, track, lo, i + 4);
    BodyAt(data, sector, track, lo, 44 + i);
    BodyAt(data, sector, track, lo, 48 + i);
    BodyAt(data, sector, track, lo, 52 + i);
    ClocksSet(Xor(rx[i], rx[i + 4]));
    DataIsAccepted(data, sector, track, lo, i);
    ShiftedLane(Sector(data, sector, track, hi, lo), rx, 56 + i, 256);
    SumByte(data, i, rx[52 + i]);
  }

  lemma ClocksSet(a: octet)
    ensures Clocked(a) == 0xaa | a
  {
  }

  lemma SumByte(data: seq<octet>, i: nat, b: octet)
    requires |data| == 512 && i < 4 && b == DataSum(data, i)
    ensures b & 0xaa == 0xaa && Decode(0xaa, b) == b & 0x55
  {
    hide Lane;
  }

  lemma {:induction false} ShiftedLane(e: seq<octet>, rx: seq<octet>, from: nat, n: nat)
    requires n > 0 ==> from + 4 * (n - 1) < |rx|
    requires |e| == |rx| + 8 && forall k | 8 <= k < |e| :: e[k] == rx[k - 8]
    ensures Lane(e, from + 8, n) == Lane(rx, from, n)
  {
    hide Xor;
    if n > 0 {
      ShiftedLane(e, rx, from, n - 1);
    }
  }

  /** The data, its odd bits and then its even bits, all clock bits set. */
  lemma DataSent(data: seq<octet>, sector: octet, track: octet, hi: octet, lo: octet, k: nat)
    requires |data| == 512 && 64 <= k < 1088
    ensures Sector(data, sector, track, hi, lo)[k] == 0xaa | (if k < 576 then data[k - 64] >> 1 else data[k - 576])
  {
    hide Body, EncodeAll, HeaderSum, DataSum, Sector;
    SectorAt(data, sector, track, hi, lo, k);
    BodyAt(data, sector, track, lo, k - 8);
    Halves(data[if k < 576 then k - 64 else k - 576]);
  }

  lemma Halves(b: octet)
    ensures OddByte(b) == 0xaa | (b >> 1) && Clocked(b) == 0xaa | b
  {
  }

  lemma QuietSent(data: seq<octet>, sector: octet, track: octet, hi: octet, lo: octet, k: nat)
    requires |data| == 512 && (k < 4 || 16 <= k < 52 || 56 <= k < 60)
    ensures Sector(data, sector, track, hi, lo)[k] == 0xaa
  {
    hide Body, EncodeAll, HeaderSum, DataSum, Sector;
    SectorAt(data, sector, track, hi, lo, k);
    if k >= 8 {
      BodyAt(data, sector, track, lo, k - 8);
    }
  }

  lemma AllSumsSent(data: seq<octet>, sector: octet, track: octet, hi: octet, lo: octet)
    requires |data| == 512
    ensures SumsAs(Sector(data, sector, track, hi, lo))
  {
    hide Sector, Lane;
    var e := Sector(data, sector, track, hi, lo);
    forall k | 52 <= k < 56
      ensures e[k] == 0xaa | (e[k - 44] ^ e[k - 40])
    {
      SumsSent(data, sector, track, hi, lo, k - 52);
    }
    forall k | 60 <= k < 64
      ensures e[k] & 0xaa == 0xaa && e[k] & 0x55 == Lane(e, k + 4, 256) & 0x55
    {
      SumsSent(data, sector, track, hi, lo, k - 60);
    }
  }

  lemma SectorSent(data: seq<octet>, sector: octet, track: octet, hi: octet, lo: octet)
    requires |data| == 512
    ensures SentAs(Sector(data, sector, track, hi, lo), data, sector, track, hi, lo)
  {
    hide Sector, Lane, InfoAs, Info, SumsAs, ClockedAfter;
    var e := Sector(data, sector, track, hi, lo);
    InfoSent(data, sector, track, hi, lo);
    AllSumsSent(data, sector, track, hi, lo);
    SectorAt(data, sector, track, hi, lo, 4);
    SectorAt(data, sector, track, hi, lo, 5);
    SectorAt(data, sector, track, hi, lo, 6);
    SectorAt(data, sector, track, hi, lo, 7);
    forall k | 0 <= k < 4 || 16 <= k < 52 || 56 <= k < 60
      ensures e[k] == 0xaa
    {
      QuietSent(data, sector, track, hi, lo, k);
    }
    forall k | 8 <= k < 16
      ensures ClockedAfter(e[k], e[k - 1])
    {
      HeaderSent(data, sector, track, hi, lo, k);
    }
    forall k | 64 <= k < 1088
      ensures e[k] == 0xaa | (if k < 576 then data[k - 64] >> 1 else data[k - 576])
    {
      DataSent(data, sector, track, hi, lo, k);
    }
  }

  /**
   A sector of an image was sent behind what had been sent, and 352 bytes AA behind it if it is the
   last one of its track.
   */
  ghost predicate SectorRead(before: seq<octet>, after: seq<octet>, image: seq<octet>, s: octet, t: octet,
                             hi: octet, lo: octet)
  {
    var at, n := 512 * (11 * t as int + s as int), |before|;
    && at + 512 <= |image|
    && |after| == n + 1088 + (if s == 10 then 352 else 0)
    && after[..n] == before
    && SentAs(after[n..n + 1088], image[at..at + 512], s, t, hi, lo)
    && forall k | n + 1088 <= k < |after| :: after[k] == 0xaa
  }

  lemma ReadShows(before: seq<octet>, image: seq<octet>, s: octet, t: octet, hi: octet, lo: octet)
    requires Offset(t, s) + 512 <= |image|
    ensures SectorRead(before, before + Lead(hi, lo) + Body(image[Offset(t, s)..Offset(t, s) + 512], s, t, lo) + Drive.Gap(s),
                       image, s, t, hi, lo)
  {
    hide SentAs, Lead, Body, Offset, Drive.Gap;
    PlaceInImage(t, s);
    GapBytes(s);
    var data := image[Offset(t, s)..Offset(t, s) + 512];
    SectorSent(data, s, t, hi, lo);
    LeadCount(hi, lo);
    Behind(before, Lead(hi, lo), Body(data, s, t, lo), Drive.Gap(s));
    assert Sector(data, s, t, hi, lo) == Lead(hi, lo) + Body(data, s, t, lo);
  }

  lemma LeadCount(hi: octet, lo: octet)
    ensures |Lead(hi, lo)| == 8
  {
  }

  /**
   ADF_Read in bytes: the sector under the head of the track asked for, or of the last one, with
   the gap marked.
   */
  method ReadSector(d: Drive, track0: octet, hi0: octet, lo0: octet, buffer: array<octet>)
    requires d.Mounted() && buffer.Length == 512
    modifies d`out, d`marks, d`curSector, buffer
    ensures d.Mounted() && d.curSector == if old(d.curSector) == 10 then 0 else old(d.curSector) + 1
    ensures var (hi, lo) := if (hi0, lo0) in {(0x00, 0x00), (0x89, 0x14), (0xa1, 0x44)} then (0x44, 0x89) else (hi0, lo0);
            SectorRead(old(d.out), d.out, d.image, old(d.curSector), if track0 > d.lastTrack then d.lastTrack else track0,
                       hi, lo)
    ensures d.marks == old(d.marks) + if old(d.curSector) == 10 then [|d.out| - 352] else []
  {
    hide SectorRead, Lead, Body, Offset, SyncFor, Drive.TotalTracks, Drive.Gap;
    ghost var before, s, t := d.out, d.curSector, if track0 > d.lastTrack then d.lastTrack else track0;
    TrackPlayed(d, track0);
    SyncWords(hi0, lo0);
    GapBytes(s);
    d.Read(track0, hi0, lo0, buffer);
    ghost var (hi, lo) := SyncFor(hi0, lo0);
    ReadShows(before, d.image, s, t, hi, lo);
  }

  lemma Behind(before: seq<octet>, a: seq<octet>, b: seq<octet>, gap: seq<octet>)
    ensures var out, n := before + a + b + gap, |before|;
            && out[..n] == before && out[n..n + |a| + |b|] == a + b && out[n + |a| + |b|..] == gap
            && forall k | n + |a| + |b| <= k < |out| :: out[k] == gap[k - n - |a| - |b|]
  {
    assert before + a + b + gap == before + (a + b) + gap;
  }

  lemma TrackPlayed(d: Drive, track: octet)
    ensures d.Played(track) == if track > d.lastTrack then d.lastTrack else track
  {
  }

  lemma GapBytes(s: octet)
    ensures |Drive.Gap(s)| == (if s == 10 then 352 else 0) && forall i | 0 <= i < |Drive.Gap(s)| :: Drive.Gap(s)[i] == 0xaa
  {
  }

  /** The checksum in two bytes four apart is that of so many bytes four apart. */
  predicate FitsAt(rx: seq<octet>, k: nat, from: nat, n: nat)
    requires k + 4 < |rx| && n > 0 && from + 4 * (n - 1) < |rx|
  {
    Lane(rx, from, n) & 0x55 == ((rx[k] & 0x55) << 1) | (rx[k + 4] & 0x55)
  }

  lemma FitIs(rx: seq<octet>, i: nat, from: nat, n: nat, at: nat)
    requires |rx| == 1080 && i < 4 && n > 0 && from + i + 4 * (n - 1) < 1080 && at + 8 <= 1080
    ensures SumFits(rx, i, from, n, at) <==> FitsAt(rx, at + i, from + i, n)
  {
    hide Lane;
  }

  lemma ParamBytes(rx: seq<octet>, track: octet, totalTracks: nat)
    requires |rx| == 1080
    ensures ParamsFit(rx, track, totalTracks) <==>
            && ((rx[0] & 0x55) << 1) | (rx[4] & 0x55) == 0xff
            && ((rx[1] & 0x55) << 1) | (rx[5] & 0x55) == track && track as int < totalTracks
            && ((rx[2] & 0x55) << 1) | (rx[6] & 0x55) <= 10
            && 1 <= ((rx[3] & 0x55) << 1) | (rx[7] & 0x55) <= 11
  {
  }

  /** Which received buffers are accepted: the header bytes, and then the checksums. */
  lemma AcceptedBytes(rx: seq<octet>, track: octet, totalTracks: nat)
    requires |rx| == 1080
    ensures Accepted(rx, track, totalTracks) <==>
            && ((rx[0] & 0x55) << 1) | (rx[4] & 0x55) == 0xff
            && ((rx[1] & 0x55) << 1) | (rx[5] & 0x55) == track && track as int < totalTracks
            && ((rx[2] & 0x55) << 1) | (rx[6] & 0x55) <= 10
            && 1 <= ((rx[3] & 0x55) << 1) | (rx[7] & 0x55) <= 11
            && FitsAt(rx, 40, 0, 10) && FitsAt(rx, 41, 1, 10) && FitsAt(rx, 42, 2, 10) && FitsAt(rx, 43, 3, 10)
            && FitsAt(rx, 48, 56, 256) && FitsAt(rx, 49, 57, 256) && FitsAt(rx, 50, 58, 256) && FitsAt(rx, 51, 59, 256)
  {
    hide Lane, SumFits, FitsAt, ParamsFit, Param, Decode;
    ParamBytes(rx, track, totalTracks);
    FitIs(rx, 0, 0, 10, 0x28);
    FitIs(rx, 1, 0, 10, 0x28);
    FitIs(rx, 2, 0, 10, 0x28);
    FitIs(rx, 3, 0, 10, 0x28);
    FitIs(rx, 0, DATA_AT, 0x100, 0x30);
    FitIs(rx, 1, DATA_AT, 0x100, 0x30);
    FitIs(rx, 2, DATA_AT, 0x100, 0x30);
    FitIs(rx, 3, DATA_AT, 0x100, 0x30);
  }

  /** What is stored of one, and where. */
  lemma StoredBytes(rx: seq<octet>, i: nat)
    requires |rx| == 1080 && i < 512
    ensures Stored(rx)[i] == ((rx[56 + i] & 0x55) << 1) | (rx[568 + i] & 0x55)
    ensures Param(rx, 2) == ((rx[2] & 0x55) << 1) | (rx[6] & 0x55)
  {
  }
}
