/**
 A whole track: read sector by sector from wherever the head is, sent back by the host to a drive,
 and found there again.
 */
module AdfCopy {
  import opened Mfm
  import opened AdfTrack
  import opened AdfDrive
  import opened Sequences

  const SECTORS: nat := 11
  const GAP_WORDS: nat := 176

  /** A stretch of bytes. */
  function Stretch(s: seq<octet>, at: nat, n: nat): (r: seq<octet>)
    requires at + n <= |s|
    ensures |r| == n
  {
    s[at..at + n]
  }

  /** A sector of the content of a track. */
  function Part(content: seq<octet>, s: octet): (data: seq<octet>)
    requires |content| == TRACK_BYTES && s <= LAST_SECTOR
    ensures |data| == SECTOR_BYTES
  {
    SectorNumber(s);
    Stretch(content, s as int * SECTOR_BYTES, SECTOR_BYTES)
  }

  /** The content of a track of an image. */
  function TrackOf(image: seq<octet>, track: octet): (content: seq<octet>)
    requires (track as int + 1) * TRACK_BYTES <= |image|
    ensures |content| == TRACK_BYTES
  {
    Stretch(image, track as int * TRACK_BYTES, TRACK_BYTES)
  }

  /** The sector under the head after some sectors have passed. */
  function Later(s: octet, n: nat): (r: octet)
    ensures s <= LAST_SECTOR ==> r <= LAST_SECTOR
  {
    if n == 0 then s else Drive.NextSector(Later(s, n - 1))
  }

  /** One sector on the wire, with what follows it. */
  function One(content: seq<octet>, s: octet, track: octet): seq<octet>
    requires |content| == TRACK_BYTES && s <= LAST_SECTOR
  {
    Lead(SYNC_HIGH, SYNC_LOW) + Body(Part(content, s), s, track, SYNC_LOW) + Drive.Gap(s)
  }

  /** Some sectors on the wire, the first one under the head. */
  function Emitted(content: seq<octet>, s: octet, track: octet, n: nat): seq<octet>
    requires |content| == TRACK_BYTES && s <= LAST_SECTOR
  {
    if n == 0 then [] else Emitted(content, s, track, n - 1) + One(content, Later(s, n - 1), track)
  }

  lemma {:induction false} LaterNext(s: octet, n: nat)
    ensures Later(Drive.NextSector(s), n) == Later(s, n + 1)
  {
    if n > 0 {
      LaterNext(s, n - 1);
    }
  }

  lemma {:induction false} EmittedFirst(content: seq<octet>, s: octet, track: octet, n: nat)
    requires |content| == TRACK_BYTES && s <= LAST_SECTOR && n > 0
    ensures Emitted(content, s, track, n) == One(content, s, track) + Emitted(content, Drive.NextSector(s), track, n - 1)
  {
    hide One;
    if n == 1 {
      assert Emitted(content, s, track, 1) == Emitted(content, s, track, 0) + One(content, s, track);
    } else {
      EmittedFirst(content, s, track, n - 1);
      LaterNext(s, n - 2);
    }
  }

  // ---- reading ------------------------------------------------------------------------------------

  /** Read request after read request for one track. */
  method ReadTrack(d: Drive, track: octet, syncHigh: octet, syncLow: octet, buffer: array<octet>, n: nat)
    requires d.Mounted() && buffer.Length == SECTOR_BYTES && track as int < d.TotalTracks()
    requires SyncFor(syncHigh, syncLow) == (SYNC_HIGH, SYNC_LOW)
    requires (track as int + 1) * TRACK_BYTES <= |d.image|
    modifies d`out, d`marks, d`curSector, buffer
    ensures d.Mounted() && d.out == old(d.out) + Emitted(TrackOf(d.image, track), old(d.curSector), track, n)
    ensures d.curSector == Later(old(d.curSector), n)
  {
    hide Lead, Body, SyncFor, TrackOf, Drive.Gap, Drive.NextSector, Drive.TotalTracks, Offset;
    ghost var content := TrackOf(d.image, track);
    ghost var s := d.curSector;
    for i := 0 to n
      invariant d.Mounted() && d.curSector == Later(s, i)
      invariant d.out == old(d.out) + Emitted(content, s, track, i)
    {
      PartIs(d.image, track, d.curSector);
      d.Read(track, syncHigh, syncLow, buffer);
    }
  }

  lemma PartIs(image: seq<octet>, track: octet, s: octet)
    requires (track as int + 1) * TRACK_BYTES <= |image| && s <= LAST_SECTOR
    ensures Offset(track, s) + SECTOR_BYTES <= |image|
    ensures image[Offset(track, s)..Offset(track, s) + SECTOR_BYTES] == Part(TrackOf(image, track), s)
  {
    hide Offset, Stretch;
    OffsetIs(track, s);
    SectorNumber(s);
    StretchOfStretch(image, track as int * TRACK_BYTES, TRACK_BYTES, s as int * SECTOR_BYTES, SECTOR_BYTES);
  }

  lemma StretchOfStretch(s: seq<octet>, a: nat, n: nat, b: nat, m: nat)
    requires a + n <= |s| && b + m <= n
    ensures Stretch(Stretch(s, a, n), b, m) == s[a + b..a + b + m]
  {
    SliceOfSlice(s, a, a + n, b, b + m);
  }

  // ---- writing ------------------------------------------------------------------------------------

  /** An image after some sectors of a track have been stored. */
  function Patched(image: seq<octet>, content: seq<octet>, track: octet, s: octet, n: nat): (r: seq<octet>)
    requires |content| == TRACK_BYTES && s <= LAST_SECTOR && (track as int + 1) * TRACK_BYTES <= |image|
    ensures |r| == |image|
  {
    if n == 0 then image
    else
      var u := Later(s, n - 1);
      PlaceFits(|image|, track, u);
      Overlay(Patched(image, content, track, s, n - 1), Offset(track, u), Part(content, u))
  }

  lemma PlaceFits(size: nat, track: octet, s: octet)
    requires (track as int + 1) * TRACK_BYTES <= size && s <= LAST_SECTOR
    ensures Offset(track, s) + SECTOR_BYTES <= size
  {
    SectorNumber(s);
  }

  lemma SectorNumber(s: octet)
    requires s <= LAST_SECTOR
    ensures s as int <= 10
  {
  }

  /** How many sectors pass before one comes under the head. */
  function Wait(s: nat, q: nat): nat
    requires s < SECTORS && q < SECTORS
  {
    if q >= s then q - s else q + SECTORS - s
  }

  lemma {:induction false} LaterIs(s: octet, n: nat)
    requires s <= LAST_SECTOR && n < SECTORS
    ensures Later(s, n) as int == if s as int + n < SECTORS then s as int + n else s as int + n - SECTORS
  {
    if n > 0 {
      LaterIs(s, n - 1);
      NextIs(Later(s, n - 1));
    }
  }

  lemma NextIs(s: octet)
    requires s <= LAST_SECTOR
    ensures Drive.NextSector(s) as int == if s as int == 10 then 0 else s as int + 1
  {
  }

  /** The sectors that have come after one more. */
  lemma WaitNext(s: octet, n: nat, q: nat)
    requires s <= LAST_SECTOR && 0 < n <= SECTORS && q < SECTORS
    ensures Wait(s as int, q) < n <==> Wait(s as int, q) < n - 1 || q == Later(s, n - 1) as int
  {
    hide Later;
    LaterIs(s, n - 1);
  }

  lemma PatchedNext(image: seq<octet>, content: seq<octet>, track: octet, s: octet, n: nat, i: nat)
    requires |content| == TRACK_BYTES && s <= LAST_SECTOR && (track as int + 1) * TRACK_BYTES <= |image|
    requires 0 < n <= SECTORS && i < |image|
    ensures var u := Later(s, n - 1);
            var at := Offset(track, u);
            Patched(image, content, track, s, n)[i]
            == if at <= i < at + SECTOR_BYTES then Part(content, u)[i - at] else Patched(image, content, track, s, n - 1)[i]
  {
    hide Overlay, Part, Later, Offset;
    PlaceFits(|image|, track, Later(s, n - 1));
  }

  /** A byte of a patched image: new in the sectors that have come, as before elsewhere. */
  lemma {:induction false} PatchedAt(image: seq<octet>, content: seq<octet>, track: octet, s: octet, n: nat, i: nat)
    requires |content| == TRACK_BYTES && s <= LAST_SECTOR && (track as int + 1) * TRACK_BYTES <= |image|
    requires n <= SECTORS && i < |image|
    ensures var o := i - track as int * TRACK_BYTES;
            Patched(image, content, track, s, n)[i]
            == if 0 <= o < TRACK_BYTES && Wait(s as int, o / SECTOR_BYTES) < n then content[o] else image[i]
  {
    hide Patched, Part, Later, Wait, Offset;
    var o := i - track as int * TRACK_BYTES;
    if n == 0 {
      NothingPatched(image, content, track, s);
    } else {
      PatchedAt(image, content, track, s, n - 1, i);
      PatchedNext(image, content, track, s, n, i);
      PartAt(content, Later(s, n - 1), o);
      if 0 <= o < TRACK_BYTES {
        WaitNext(s, n, o / SECTOR_BYTES);
      }
      OffsetIs(track, Later(s, n - 1));
    }
  }

  lemma NothingPatched(image: seq<octet>, content: seq<octet>, track: octet, s: octet)
    requires |content| == TRACK_BYTES && s <= LAST_SECTOR && (track as int + 1) * TRACK_BYTES <= |image|
    ensures Patched(image, content, track, s, 0) == image
  {
  }

  lemma OffsetIs(track: octet, s: octet)
    ensures Offset(track, s) == track as int * TRACK_BYTES + s as int * SECTOR_BYTES
  {
  }

  lemma PartAt(content: seq<octet>, u: octet, o: int)
    requires |content| == TRACK_BYTES && u <= LAST_SECTOR
    ensures var at := u as int * SECTOR_BYTES;
            && (at <= o < at + SECTOR_BYTES <==> 0 <= o < TRACK_BYTES && o / SECTOR_BYTES == u as int)
            && (at <= o < at + SECTOR_BYTES ==> Part(content, u)[o - at] == content[o])
  {
    SectorNumber(u);
  }

  /** After eleven sectors, whichever comes first, the track is the content. */
  lemma PatchedAll(image: seq<octet>, content: seq<octet>, track: octet, s: octet)
    requires |content| == TRACK_BYTES && s <= LAST_SECTOR && (track as int + 1) * TRACK_BYTES <= |image|
    ensures Patched(image, content, track, s, SECTORS) == Overlay(image, track as int * TRACK_BYTES, content)
  {
    hide Patched, Overlay;
    var at := track as int * TRACK_BYTES;
    forall i | 0 <= i < |image|
      ensures Patched(image, content, track, s, SECTORS)[i] == Overlay(image, at, content)[i]
    {
      PatchedAt(image, content, track, s, SECTORS, i);
    }
  }

  /** Two write requests for each of the sectors the host sends back. */
  method WriteTrack(d: Drive, ghost content: seq<octet>, ghost s: octet, track: octet, n: nat)
    requires d.Mounted() && d.writeState == 0 && !d.readOnly && track as int < d.TotalTracks()
    requires |content| == TRACK_BYTES && s <= LAST_SECTOR && (track as int + 1) * TRACK_BYTES <= |d.image|
    requires d.wire == Emitted(content, s, track, n)
    modifies d`image, d`wire, d`writeState
    ensures d.Mounted() && d.writeState == 0
    ensures d.image == Patched(old(d.image), content, track, s, n)
  {
    hide Body, Lead, Overlay, Part, Drive.Gap, Drive.TotalTracks, Emitted, Offset, Repeat;
    ghost var gap: nat := 0;
    NoGap(d.wire);
    for i := 0 to n
      invariant d.Mounted() && d.writeState == 0 && gap <= GAP_WORDS
      invariant d.wire == Repeat(0xaa, 2 * gap) + Emitted(content, Later(s, i), track, n - i)
      invariant d.image == Patched(old(d.image), content, track, s, i)
    {
      ghost var u := Later(s, i);
      ghost var rest := Drive.Gap(u) + Emitted(content, Drive.NextSector(u), track, n - i - 1);
      SplitWire(content, u, track, n - i, gap);
      d.WriteSector(Part(content, u), u, track, gap, rest);
      gap := GapWords(u);
      GapIs(u);
    }
  }

  ghost function GapWords(s: octet): nat {
    if s == LAST_SECTOR then GAP_WORDS else 0
  }

  lemma GapIs(s: octet)
    ensures Drive.Gap(s) == Repeat(0xaa, 2 * GapWords(s))
  {
  }

  lemma NoGap(wire: seq<octet>)
    ensures wire == Repeat(0xaa, 2 * 0) + wire
  {
  }

  lemma SplitWire(content: seq<octet>, s: octet, track: octet, n: nat, gap: nat)
    requires |content| == TRACK_BYTES && s <= LAST_SECTOR && n > 0
    ensures Repeat(0xaa, 2 * gap) + Emitted(content, s, track, n)
         == Repeat(0xaa, 2 * gap) + Lead(SYNC_HIGH, SYNC_LOW) + Body(Part(content, s), s, track, SYNC_LOW)
            + (Drive.Gap(s) + Emitted(content, Drive.NextSector(s), track, n - 1))
  {
    hide Repeat, Lead, Body, Part, Drive.Gap, Emitted;
    EmittedFirst(content, s, track, n);
  }

  /**
   A track read from one drive, from whatever sector is under the head, and written to another: the
   other has the track then, and nothing else of it changed.
   */
  method CopyTrack(from: Drive, to: Drive, track: octet, syncHigh: octet, syncLow: octet, buffer: array<octet>)
    requires from != to && from.Mounted() && to.Mounted() && buffer.Length == SECTOR_BYTES
    requires track as int < from.TotalTracks() && track as int < to.TotalTracks()
    requires SyncFor(syncHigh, syncLow) == (SYNC_HIGH, SYNC_LOW) && from.out == [] && to.writeState == 0 && !to.readOnly
    modifies from`out, from`marks, from`curSector, to`image, to`wire, to`writeState, buffer
    ensures from.Mounted() && to.Mounted() && to.writeState == 0
    ensures (track as int + 1) * 5632 <= |from.image| && (track as int + 1) * 5632 <= |old(to.image)|
    ensures var at := track as int * 5632; to.image == Overlay(old(to.image), at, from.image[at..at + 5632])
  {
    hide Overlay, Patched, Emitted, SyncFor;
    TrackFits(from, track);
    TrackFits(to, track);
    ghost var content := TrackOf(from.image, track);
    ghost var s := from.curSector;
    ReadTrack(from, track, syncHigh, syncLow, buffer, SECTORS);
    to.wire := from.out;
    WriteTrack(to, content, s, track, SECTORS);
    PatchedAll(old(to.image), content, track, s);
  }

  lemma TrackFits(d: Drive, track: octet)
    requires d.Mounted() && track as int < d.TotalTracks()
    ensures (track as int + 1) * TRACK_BYTES <= |d.image| && d.curSector <= LAST_SECTOR
  {
  }
}
