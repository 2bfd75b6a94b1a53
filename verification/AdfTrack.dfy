/**
 Amiga sectors on a raw track: how the driver emits one, which received ones it accepts, and
 what it stores. A received buffer starts behind the second sync word.
 */
module AdfTrack {
  import opened Mfm
  import opened Sequences

  const BODY_SIZE: nat := 1080
  const DATA_AT: nat := 0x38
  const EVEN_AT: nat := 0x238
  const SECTOR_BYTES: nat := 512

  // ---- acceptance -----------------------------------------------------------------------------

  /** Parameter byte i of the header: format, track, sector, sectors to the gap. */
  function Param(rx: seq<octet>, i: nat): octet
    requires |rx| == BODY_SIZE && i < 4
  {
    Decode(rx[i], rx[i + 4])
  }

  predicate ParamsFit(rx: seq<octet>, track: octet, totalTracks: nat)
    requires |rx| == BODY_SIZE
  {
    && Param(rx, 0) == 0xff
    && Param(rx, 1) as int < totalTracks
    && Param(rx, 2) <= 10
    && 0 < Param(rx, 3) <= 11
    && Param(rx, 1) == track
  }

  /** The checksum over the data bits of n bytes four apart, stored as two halves at an offset. */
  predicate SumFits(rx: seq<octet>, i: nat, from: nat, n: nat, at: nat)
    requires |rx| == BODY_SIZE && i < 4 && n > 0 && from + i + 4 * (n - 1) < BODY_SIZE && at + 8 <= BODY_SIZE
  {
    Lane(rx, from + i, n) & 0x55 == Decode(rx[at + i], rx[at + i + 4])
  }

  predicate HeaderFits(rx: seq<octet>)
    requires |rx| == BODY_SIZE
  {
    forall i | 0 <= i < 4 :: SumFits(rx, i, 0, 10, 0x28)
  }

  predicate DataFits(rx: seq<octet>)
    requires |rx| == BODY_SIZE
  {
    forall i | 0 <= i < 4 :: SumFits(rx, i, DATA_AT, 0x100, 0x30)
  }

  predicate Accepted(rx: seq<octet>, track: octet, totalTracks: nat) {
    |rx| == BODY_SIZE && ParamsFit(rx, track, totalTracks) && HeaderFits(rx) && DataFits(rx)
  }

  /** The sector that an accepted buffer holds. */
  function Stored(rx: seq<octet>): (data: seq<octet>)
    requires |rx| == BODY_SIZE
    ensures |data| == SECTOR_BYTES
    ensures forall i | 0 <= i < SECTOR_BYTES :: data[i] == Decode(rx[DATA_AT + i], rx[EVEN_AT + i])
  {
    seq(SECTOR_BYTES, i requires 0 <= i < SECTOR_BYTES => Decode(rx[DATA_AT + i], rx[EVEN_AT + i]))
  }

  // ---- emission ---------------------------------------------------------------------------------

  /** The eight bytes whose even bits make up the header: odd bits first. */
  function Info(sector: octet, track: octet): seq<octet> {
    [0xff, track >> 1, sector >> 1, (11 - sector) >> 1, 0xff, track, sector, 11 - sector]
  }

  /** Bytes encoded one after the other, each with its clock bits made from the one before. */
  function EncodeAll(bytes: seq<octet>, l: octet): (s: seq<octet>)
    ensures |s| == |bytes|
  {
    if bytes == [] then [] else
    var before := EncodeAll(bytes[..|bytes| - 1], l);
    before + [Encode(bytes[|bytes| - 1], if before == [] then l else before[|before| - 1])]
  }

  lemma {:induction false} EncodeAllKeepsData(bytes: seq<octet>, l: octet, i: nat)
    requires i < |bytes|
    ensures EncodeAll(bytes, l)[i] & 0x55 == bytes[i] & 0x55
  {
    hide Encode;
    var n := |bytes|;
    var before := EncodeAll(bytes[..n - 1], l);
    if i < n - 1 {
      EncodeAllKeepsData(bytes[..n - 1], l, i);
    } else {
      EncodeKeepsData(bytes[n - 1], if before == [] then l else before[|before| - 1]);
    }
  }

  /** The odd bits of a byte, its even bits, and both folded together, clock bits as emitted. */
  function OddByte(b: octet): octet {
    (b >> 1) | 0xaa
  }

  /** A byte with all clock bits set. */
  function Clocked(b: octet): octet {
    b | 0xaa
  }

  function FoldByte(b: octet): octet {
    Xor(b, b >> 1)
  }

  function Folded(data: seq<octet>): (s: seq<octet>)
    ensures |s| == |data| && forall k | 0 <= k < |data| :: s[k] == FoldByte(data[k])
  {
    seq(|data|, k requires 0 <= k < |data| => FoldByte(data[k]))
  }

  function OddHalf(data: seq<octet>): (s: seq<octet>)
    ensures |s| == |data| && forall k | 0 <= k < |data| :: s[k] == OddByte(data[k])
  {
    seq(|data|, k requires 0 <= k < |data| => OddByte(data[k]))
  }

  function EvenHalf(data: seq<octet>): (s: seq<octet>)
    ensures |s| == |data| && forall k | 0 <= k < |data| :: s[k] == Clocked(data[k])
  {
    seq(|data|, k requires 0 <= k < |data| => Clocked(data[k]))
  }

  /** The checksum bytes of a header and of the data, clock bits all set. */
  function HeaderSum(h: seq<octet>, i: nat): octet
    requires |h| == 8 && i < 4
  {
    Clocked(Xor(h[i], h[i + 4]))
  }

  function DataSum(data: seq<octet>, i: nat): octet
    requires |data| == SECTOR_BYTES && i < 4
  {
    Clocked(Lane(Folded(data), i, 128))
  }

  /** Everything the driver emits of a sector header behind the sync words. */
  function HeaderBody(data: seq<octet>, sector: octet, track: octet, syncLow: octet): (s: seq<octet>)
    requires |data| == SECTOR_BYTES
    ensures |s| == 56
  {
    var h := EncodeAll(Info(sector, track), syncLow);
    h + Repeat(0xaa, 36) + [HeaderSum(h, 0), HeaderSum(h, 1), HeaderSum(h, 2), HeaderSum(h, 3)]
    + Repeat(0xaa, 4) + [DataSum(data, 0), DataSum(data, 1), DataSum(data, 2), DataSum(data, 3)]
  }

  /** A sector as it stands on the track behind the sync words. */
  function Body(data: seq<octet>, sector: octet, track: octet, syncLow: octet): (s: seq<octet>)
    requires |data| == SECTOR_BYTES
    ensures |s| == BODY_SIZE
  {
    HeaderBody(data, sector, track, syncLow) + OddHalf(data) + EvenHalf(data)
  }

  lemma SplitDecodes(b: octet)
    ensures Decode(OddByte(b), Clocked(b)) == b
  {
    HalvesDecode(b);
  }

  // ---- what is emitted is accepted ---------------------------------------------------------------

  /** The bytes of the body, one by one. */
  lemma BodyAt(data: seq<octet>, sector: octet, track: octet, syncLow: octet, k: nat)
    requires |data| == SECTOR_BYTES && k < BODY_SIZE
    ensures var rx := Body(data, sector, track, syncLow);
            var h := EncodeAll(Info(sector, track), syncLow);
            rx[k] == if k < 8 then h[k]
                     else if k < 0x2c then 0xaa
                     else if k < 0x30 then HeaderSum(h, k - 0x2c)
                     else if k < 0x34 then 0xaa
                     else if k < 0x38 then DataSum(data, k - 0x34)
                     else if k < EVEN_AT then OddByte(data[k - DATA_AT])
                     else Clocked(data[k - EVEN_AT])
  {
    hide EncodeAll, HeaderSum, DataSum, OddByte, Clocked;
  }

  lemma {:induction false} LaneQuiet(s: seq<octet>, from: nat, m: nat, n: nat)
    requires n > 0 ==> from + 4 * (m + n - 1) < |s|
    requires m > 0 ==> from + 4 * (m - 1) < |s|
    requires forall j | m <= j < m + n :: s[from + 4 * j] == 0xaa
    ensures m + n > 0 ==> from + 4 * (m + n - 1) < |s|
    ensures Lane(s, from, m + n) & 0x55 == Lane(s, from, m) & 0x55
  {
    hide Xor;
    if n > 0 {
      LaneQuiet(s, from, m, n - 1);
      assert s[from + 4 * (m + n - 1)] == 0xaa;
      QuietXor(Lane(s, from, m + n - 1));
    }
  }

  lemma QuietXor(a: octet)
    ensures Xor(a, 0xaa) & 0x55 == a & 0x55
  {
  }

  lemma SumDecodes(a: octet)
    ensures Decode(0xaa, Clocked(a)) == a & 0x55
  {
  }

  /** The header the driver emits names the track and sector, counts down to the gap, and adds up. */
  lemma HeaderIsAccepted(data: seq<octet>, sector: octet, track: octet, syncLow: octet, i: nat)
    requires |data| == SECTOR_BYTES && i < 4
    ensures var rx := Body(data, sector, track, syncLow);
            && Param(rx, i) == [0xff, track, sector, 11 - sector][i]
            && SumFits(rx, i, 0, 10, 0x28)
  {
    hide EncodeAll, Decode, Xor, Body, DataSum, OddByte, Clocked, FoldByte;
    var rx := Body(data, sector, track, syncLow);
    var info := Info(sector, track);
    var h := EncodeAll(info, syncLow);
    BodyAt(data, sector, track, syncLow, i);
    BodyAt(data, sector, track, syncLow, i + 4);
    EncodeAllKeepsData(info, syncLow, i);
    EncodeAllKeepsData(info, syncLow, i + 4);
    InfoHalves(sector, track, i);
    EncodedHalvesDecode([0xff, track, sector, 11 - sector][i], h[i], h[i + 4]);
    forall j | 2 <= j < 2 + 8
      ensures rx[i + 4 * j] == 0xaa
    {
      BodyAt(data, sector, track, syncLow, i + 4 * j);
    }
    LaneQuiet(rx, i, 2, 8);
    LaneOfTwo(rx, i);
    BodyAt(data, sector, track, syncLow, 0x28 + i);
    BodyAt(data, sector, track, syncLow, 0x2c + i);
    SumDecodes(Xor(h[i], h[i + 4]));
  }

  lemma InfoHalves(sector: octet, track: octet, i: nat)
    requires i < 4
    ensures var b: octet := [0xff, track, sector, 11 - sector][i];
            Info(sector, track)[i] & 0x55 == (b >> 1) & 0x55 && Info(sector, track)[i + 4] & 0x55 == b & 0x55
  {
  }

  lemma LaneOfTwo(s: seq<octet>, from: nat)
    requires from + 4 < |s|
    ensures Lane(s, from, 2) == Xor(s[from], s[from + 4])
  {
    XorZeroLeft(s[from]);
    assert Lane(s, from, 0) == 0;
    assert Lane(s, from, 1) == Xor(Lane(s, from, 0), s[from]);
  }

  lemma XorZeroLeft(a: octet)
    ensures Xor(0, a) == a
  {
  }

  /** The emitted data checksum is that of the two emitted halves. */
  lemma {:induction false} HalvesAddUp(data: seq<octet>, rx: seq<octet>, i: nat, n: nat)
    requires |data| == SECTOR_BYTES && |rx| == BODY_SIZE && i < 4 && n <= 128
    requires forall k | 0 <= k < SECTOR_BYTES :: rx[DATA_AT + k] == OddByte(data[k]) && rx[EVEN_AT + k] == Clocked(data[k])
    ensures Xor(Lane(rx, DATA_AT + i, n), Lane(rx, EVEN_AT + i, n)) & 0x55 == Lane(Folded(data), i, n) & 0x55
  {
    hide Xor, OddByte, Clocked, FoldByte;
    if n == 0 {
      XorZero(0);
    } else {
      HalvesAddUp(data, rx, i, n - 1);
      var k := i + 4 * (n - 1);
      assert rx[DATA_AT + k] == OddByte(data[k]) && rx[EVEN_AT + k] == Clocked(data[k]);
      HalvesStep(Lane(rx, DATA_AT + i, n - 1), Lane(rx, EVEN_AT + i, n - 1), Lane(Folded(data), i, n - 1), data[k]);
    }
  }

  lemma HalvesStep(a: octet, b: octet, c: octet, x: octet)
    requires Xor(a, b) & 0x55 == c & 0x55
    ensures Xor(Xor(a, OddByte(x)), Xor(b, Clocked(x))) & 0x55 == Xor(c, FoldByte(x)) & 0x55
  {
  }

  lemma DataIsAccepted(data: seq<octet>, sector: octet, track: octet, syncLow: octet, i: nat)
    requires |data| == SECTOR_BYTES && i < 4
    ensures SumFits(Body(data, sector, track, syncLow), i, DATA_AT, 0x100, 0x30)
  {
    hide Decode, Xor, OddByte, Clocked, FoldByte, Body, HeaderSum, EncodeAll;
    var rx := Body(data, sector, track, syncLow);
    forall k | 0 <= k < SECTOR_BYTES
      ensures rx[DATA_AT + k] == OddByte(data[k]) && rx[EVEN_AT + k] == Clocked(data[k])
    {
      BodyAt(data, sector, track, syncLow, DATA_AT + k);
      BodyAt(data, sector, track, syncLow, EVEN_AT + k);
    }
    HalvesAddUp(data, rx, i, 128);
    LaneSplit(rx, DATA_AT + i, 128, 128);
    BodyAt(data, sector, track, syncLow, 0x30 + i);
    BodyAt(data, sector, track, syncLow, 0x34 + i);
    SumDecodes(Lane(Folded(data), i, 128));
  }

  /**
   Every emitted sector is accepted on its track, names its sector, and holds the data it was
   made from.
   */
  lemma EmittedIsAccepted(data: seq<octet>, sector: octet, track: octet, syncLow: octet, totalTracks: nat)
    requires |data| == SECTOR_BYTES && sector <= 10 && track as int < totalTracks
    ensures Accepted(Body(data, sector, track, syncLow), track, totalTracks)
    ensures Param(Body(data, sector, track, syncLow), 2) == sector
    ensures Stored(Body(data, sector, track, syncLow)) == data
  {
    hide Decode, Xor, OddByte, Clocked, FoldByte, Body, Lane, SumFits, Param;
    var rx := Body(data, sector, track, syncLow);
    forall i | 0 <= i < 4
      ensures SumFits(rx, i, 0, 10, 0x28) && SumFits(rx, i, DATA_AT, 0x100, 0x30)
      ensures Param(rx, i) == [0xff, track, sector, 11 - sector][i]
    {
      HeaderIsAccepted(data, sector, track, syncLow, i);
      DataIsAccepted(data, sector, track, syncLow, i);
    }
    forall k | 0 <= k < SECTOR_BYTES
      ensures Stored(rx)[k] == data[k]
    {
      BodyAt(data, sector, track, syncLow, DATA_AT + k);
      BodyAt(data, sector, track, syncLow, EVEN_AT + k);
      SplitDecodes(data[k]);
    }
  }

  // ---- what is damaged is rejected ----------------------------------------------------------------

  /**
   A single flipped bit in an accepted buffer is rejected exactly when it is a data bit; a flipped
   clock bit changes neither the sector that is stored nor where it goes.
   */
  lemma FlipIsRejected(rx: seq<octet>, track: octet, totalTracks: nat, k: nat, m: octet)
    requires Accepted(rx, track, totalTracks) && k < BODY_SIZE && Single(m)
    ensures var bad := rx[k := Xor(rx[k], m)];
            && (Accepted(bad, track, totalTracks) <==> m & 0x55 == 0)
            && (m & 0x55 == 0 ==> Stored(bad) == Stored(rx) && Param(bad, 2) == Param(rx, 2))
  {
    hide Decode, Xor, OddByte, Clocked, FoldByte, Lane;
    var bad := rx[k := Xor(rx[k], m)];
    if m & 0x55 == 0 {
      DataBitShows(rx[k], m);
      assert forall i | 0 <= i < 4 :: SumFits(rx, i, 0, 10, 0x28) && SumFits(rx, i, DATA_AT, 0x100, 0x30);
      ClockBitsIgnored(rx, bad, track, totalTracks);
    } else if k < 0x30 {
      HeaderBitCaught(rx, k, m);
    } else {
      DataBitCaught(rx, k, m);
    }
  }

  /** Two buffers with the same data bits, whatever their clock bits, are treated alike. */
  lemma ClockBitsIgnored(rx: seq<octet>, bad: seq<octet>, track: octet, totalTracks: nat)
    requires |rx| == |bad| == BODY_SIZE && forall x | 0 <= x < BODY_SIZE :: rx[x] & 0x55 == bad[x] & 0x55
    requires Accepted(rx, track, totalTracks)
    ensures Accepted(bad, track, totalTracks) && Stored(bad) == Stored(rx) && Param(bad, 2) == Param(rx, 2)
  {
    hide Decode, Xor, Lane;
    forall i | 0 <= i < 4
      ensures Param(bad, i) == Param(rx, i)
      ensures SumFits(bad, i, 0, 10, 0x28) && SumFits(bad, i, DATA_AT, 0x100, 0x30)
    {
      DecodeOfData(rx[i], bad[i], rx[i + 4], bad[i + 4]);
      SameSum(rx, bad, i, 0, 10, 0x28);
      SameSum(rx, bad, i, DATA_AT, 0x100, 0x30);
    }
    forall k | 0 <= k < SECTOR_BYTES
      ensures Stored(bad)[k] == Stored(rx)[k]
    {
      DecodeOfData(rx[DATA_AT + k], bad[DATA_AT + k], rx[EVEN_AT + k], bad[EVEN_AT + k]);
    }
  }

  lemma SameSum(rx: seq<octet>, bad: seq<octet>, i: nat, from: nat, n: nat, at: nat)
    requires |rx| == |bad| == BODY_SIZE && forall x | 0 <= x < BODY_SIZE :: rx[x] & 0x55 == bad[x] & 0x55
    requires i < 4 && n > 0 && from + i + 4 * (n - 1) < BODY_SIZE && at + 8 <= BODY_SIZE
    ensures SumFits(rx, i, from, n, at) <==> SumFits(bad, i, from, n, at)
  {
    hide Decode, Lane;
    LaneOfData(bad, rx, from + i, from + i, n);
    DecodeOfData(rx[at + i], bad[at + i], rx[at + i + 4], bad[at + i + 4]);
  }

  lemma DecodeOfData(a: octet, b: octet, c: octet, d: octet)
    requires a & 0x55 == b & 0x55 && c & 0x55 == d & 0x55
    ensures Decode(a, c) == Decode(b, d)
  {
  }

  lemma HeaderBitCaught(rx: seq<octet>, k: nat, m: octet)
    requires |rx| == BODY_SIZE && HeaderFits(rx) && k < 0x30 && Single(m) && m & 0x55 != 0
    ensures !HeaderFits(rx[k := Xor(rx[k], m)])
  {
    var i := k % 4;
    assert SumFits(rx, i, 0, 10, 0x28);
    SumCatches(rx, i, 0, 10, 0x28, k, m);
  }

  lemma DataBitCaught(rx: seq<octet>, k: nat, m: octet)
    requires |rx| == BODY_SIZE && DataFits(rx) && 0x30 <= k < BODY_SIZE && Single(m) && m & 0x55 != 0
    ensures !DataFits(rx[k := Xor(rx[k], m)])
  {
    var i := k % 4;
    assert SumFits(rx, i, DATA_AT, 0x100, 0x30);
    SumCatches(rx, i, DATA_AT, 0x100, 0x30, k, m);
  }

  /** The bytes of a lane lie four apart. */
  lemma LanePlace(k: nat, from: nat, i: nat)
    requires i < 4 && from % 4 == 0 && k % 4 == i && from <= k
    ensures k >= from + i && k == from + i + 4 * ((k - from - i) / 4)
  {
    var a, b := k / 4, from / 4;
    assert k == 4 * a + i && from == 4 * b;
    assert a >= b;
    assert k - from - i == 4 * (a - b);
  }

  /** A checksum catches a flipped data bit in what it covers and in itself. */
  lemma SumCatches(rx: seq<octet>, i: nat, from: nat, n: nat, at: nat, k: nat, m: octet)
    requires |rx| == BODY_SIZE && i < 4 && n > 0 && from + i + 4 * (n - 1) < BODY_SIZE && at + 8 <= BODY_SIZE
    requires SumFits(rx, i, from, n, at) && Single(m) && m & 0x55 != 0
    requires from % 4 == 0 && at % 4 == 0 && k < BODY_SIZE && k % 4 == i
    requires from <= k < from + 4 * n || at <= k < at + 8
    requires at + 8 <= from || from + 4 * n <= at
    ensures !SumFits(rx[k := Xor(rx[k], m)], i, from, n, at)
  {
    hide Decode, Xor, OddByte, Clocked, FoldByte, Lane;
    if from <= k < from + 4 * n {
      var j := (k - from - i) / 4;
      LanePlace(k, from, i);
      LaneFlipIn(rx, from + i, n, j, m);
      DataBitShows(Lane(rx, from + i, n), m);
    } else {
      LaneFlipOut(rx, from + i, n, k, m);
      FlipDecodes(rx[k], m, rx[at + i]);
      FlipDecodes(rx[k], m, rx[at + i + 4]);
      LanePlace(k, at, i);
    }
  }
}
