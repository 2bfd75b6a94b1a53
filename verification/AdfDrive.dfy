/**
 The floppy drive with a sector image: it plays the sectors of a track one after the other in
 MFM, and takes written sectors back by hunting for the sync words.
 */
module AdfDrive {
  import opened Mfm
  import opened AdfTrack
  import opened Sequences

  const LAST_SECTOR: octet := 10
  const TRACK_BYTES: nat := 5632
  const ADF_WRITE_LEN: nat := 540
  const GAP_SIZE: nat := 700
  const SYNC_HIGH: octet := 0x44
  const SYNC_LOW: octet := 0x89

  lemma {:induction false} EncodeAllConcat(a: seq<octet>, b: seq<octet>, l: octet)
    requires a != []
    ensures EncodeAll(a + b, l) == EncodeAll(a, l) + EncodeAll(b, EncodeAll(a, l)[|a| - 1])
  {
    hide Encode;
    if b == [] {
      assert a + b == a;
    } else {
      EncodeAllConcat(a, b[..|b| - 1], l);
      assert (a + b)[..|a + b| - 1] == a + b[..|b| - 1];
    }
  }

  lemma EncodeOne(b: octet, l: octet)
    ensures EncodeAll([b], l) == [Encode(b, l)]
  {
    hide Encode;
    assert [b][..0] == [];
  }

  lemma EncodeFour(l: octet, b0: octet, b1: octet, b2: octet, b3: octet)
    ensures var x0 := Encode(b0, l);
            var x1 := Encode(b1, x0);
            var x2 := Encode(b2, x1);
            EncodeAll([b0, b1, b2, b3], l) == [x0, x1, x2, Encode(b3, x2)]
  {
    hide Encode, EncodeAll;
    var x0 := Encode(b0, l);
    var x1 := Encode(b1, x0);
    EncodeOne(b0, l);
    EncodeOne(b1, x0);
    EncodeOne(b2, x1);
    EncodeOne(b3, Encode(b2, x1));
    EncodeAllConcat([b0], [b1], l);
    assert [b0] + [b1] == [b0, b1];
    EncodeAllConcat([b0, b1], [b2], l);
    assert [b0, b1] + [b2] == [b0, b1, b2];
    EncodeAllConcat([b0, b1, b2], [b3], l);
    assert [b0, b1, b2] + [b3] == [b0, b1, b2, b3];
  }

  /** Where a sector lies in the image. */
  function Offset(track: octet, sector: octet): nat {
    track as int * TRACK_BYTES + sector as int * SECTOR_BYTES
  }

  /** The word at a position of received bytes is the sync word. */
  predicate SyncAt(bytes: seq<octet>, k: nat)
    requires 2 * k + 2 <= |bytes|
  {
    bytes[2 * k] == SYNC_HIGH && bytes[2 * k + 1] == SYNC_LOW
  }

  /** How many of n words are read until a sync word was among them. */
  function WordsToSync(bytes: seq<octet>, n: nat): (k: nat)
    requires 2 * n <= |bytes|
    ensures k <= n
    ensures forall j | 0 <= j < k - 1 :: !SyncAt(bytes, j)
  {
    if n == 0 then 0
    else
      var k := WordsToSync(bytes, n - 1);
      if k > 0 && SyncAt(bytes, k - 1) then k else n
  }

  /** How many words write state 1 reads for a request of so many. */
  function Consumed(bytes: seq<octet>, request: nat): nat
    requires |bytes| >= 2
  {
    if request < ADF_WRITE_LEN then 0
    else if !SyncAt(bytes, 0) then 1
    else 1 + ADF_WRITE_LEN
  }

  /** It reads more than was requested exactly for a request of 540 words that starts with a sync word. */
  lemma ReadsBeyond(bytes: seq<octet>, request: nat)
    requires |bytes| >= 2
    ensures Consumed(bytes, request) > request <==> request == 540 && bytes[0] == 0x44 && bytes[1] == 0x89
  {
  }

  /** An input for which it does: 540 words of which the first is the sync word. */
  lemma OneWordMissing(rest: seq<octet>)
    requires |rest| == 1078
    ensures Consumed([0x44, 0x89] + rest, 540) == 541
  {
    assert SyncAt([0x44, 0x89] + rest, 0);
  }

  /** A 16-bit register. */
  function LowWord(n: nat): nat {
    n % 0x1_0000
  }

  lemma CountDown(n: nat)
    requires 0 < n <= 0x1_0000
    ensures LowWord(LowWord(n) + 0xffff) == LowWord(n - 1)
    ensures LowWord(n - 1) == 0 <==> n == 1
  {
  }

  class Drive {
    const lastTrack: octet
    const readOnly: bool
    var image: seq<octet>
    var curSector: octet
    var writeState: nat
    // what was sent, and where in it words marked for the gap start
    var out: seq<octet>
    var marks: seq<nat>
    // what reads return: the words the host has sent, then whatever there is once these are used up
    var wire: seq<octet>

    function TotalTracks(): (n: nat)
      ensures n > 0
    {
      lastTrack as int + 1
    }

    predicate Mounted()
      reads `image, `curSector
    {
      TotalTracks() * TRACK_BYTES <= |image| && curSector <= LAST_SECTOR
    }

    constructor (image: seq<octet>, lastTrack: octet, readOnly: bool)
      requires (lastTrack as int + 1) * TRACK_BYTES <= |image|
      ensures Mounted() && this.image == image && writeState == 0 && out == [] && marks == [] && wire == []
    {
      this.image, this.readOnly, this.lastTrack := image, readOnly, lastTrack;
      curSector, writeState, out, marks, wire := 0, 0, [], [], [];
    }

    method Send(b: octet)
      modifies `out
      ensures out == old(out) + [b]
    {
      out := out + [b];
    }

    method SendSame(b: octet, n: nat)
      modifies `out
      ensures out == old(out) + Repeat(b, n)
    {
      for i := 0 to n
        invariant out == old(out) + Repeat(b, i)
      {
        Send(b);
      }
    }

    /** Four bytes encoded and sent, each with clock bits that depend on the one before. */
    method SendFour(l: octet, b0: octet, b1: octet, b2: octet, b3: octet)
      returns (x0: octet, x1: octet, x2: octet, x3: octet)
      modifies `out
      ensures EncodeAll([b0, b1, b2, b3], l) == [x0, x1, x2, x3]
      ensures out == old(out) + [x0, x1, x2, x3]
    {
      hide Encode, EncodeAll;
      x0 := Encode(b0, l);
      Send(x0);
      x1 := Encode(b1, x0);
      Send(x1);
      x2 := Encode(b2, x1);
      Send(x2);
      x3 := Encode(b3, x2);
      Send(x3);
      EncodeFour(l, b0, b1, b2, b3);
    }

    /** The eight header bytes, and the exclusive ors of their halves. */
    method SendInfo(sector: octet, track: octet, syncLow: octet) returns (c0: octet, c1: octet, c2: octet, c3: octet)
      modifies `out
      ensures var h := EncodeAll(Info(sector, track), syncLow);
              && out == old(out) + h && |h| == 8
              && c0 == Xor(h[0], h[4]) && c1 == Xor(h[1], h[5]) && c2 == Xor(h[2], h[6]) && c3 == Xor(h[3], h[7])
    {
      hide Encode, EncodeAll, Xor;
      var x0, x1, x2, x3 := SendFour(syncLow, 0xff, track >> 1, sector >> 1, (11 - sector) >> 1);
      var y0, y1, y2, y3 := SendFour(x3, 0xff, track, sector, 11 - sector);
      ghost var odd: seq<octet> := [0xff, track >> 1, sector >> 1, (11 - sector) >> 1];
      ghost var even: seq<octet> := [0xff, track, sector, 11 - sector];
      EncodeAllConcat(odd, even, syncLow);
      assert Info(sector, track) == odd + even;
      c0, c1, c2, c3 := Xor(x0, y0), Xor(x1, y1), Xor(x2, y2), Xor(x3, y3);
    }

    /** The exclusive ors of the bytes of a sector folded onto their even bits. */
    method FoldSector(buffer: array<octet>) returns (c0: octet, c1: octet, c2: octet, c3: octet)
      requires buffer.Length == SECTOR_BYTES
      ensures var f := Folded(buffer[..]);
              c0 == Lane(f, 0, 128) && c1 == Lane(f, 1, 128) && c2 == Lane(f, 2, 128) && c3 == Lane(f, 3, 128)
    {
      hide Xor, FoldByte;
      ghost var f := Folded(buffer[..]);
      c0, c1, c2, c3 := 0, 0, 0, 0;
      var p := 0;
      for i := 0 to 128
        invariant p == 4 * i
        invariant c0 == Lane(f, 0, i) && c1 == Lane(f, 1, i) && c2 == Lane(f, 2, i) && c3 == Lane(f, 3, i)
      {
        c0 := Xor(c0, FoldByte(buffer[p]));
        c1 := Xor(c1, FoldByte(buffer[p + 1]));
        c2 := Xor(c2, FoldByte(buffer[p + 2]));
        c3 := Xor(c3, FoldByte(buffer[p + 3]));
        p := p + 4;
      }
    }

    /** Four clock-only bytes and a checksum. */
    method SendSum(c0: octet, c1: octet, c2: octet, c3: octet)
      modifies `out
      ensures out == old(out) + Repeat(0xaa, 4) + [Clocked(c0), Clocked(c1), Clocked(c2), Clocked(c3)]
    {
      SendSame(0xaa, 4);
      Send(Clocked(c0));
      Send(Clocked(c1));
      Send(Clocked(c2));
      Send(Clocked(c3));
    }

    /** Amiga_SendHeader: preamble, sync words, header and both checksums. */
    method SendHeader(buffer: array<octet>, sector: octet, track: octet, syncHigh: octet, syncLow: octet)
      requires buffer.Length == SECTOR_BYTES
      modifies `out
      ensures out == old(out) + Lead(syncHigh, syncLow) + HeaderBody(buffer[..], sector, track, syncLow)
    {
      hide EncodeAll, Xor, Folded, Info, Lane, HeaderSum, DataSum, Repeat;
      SendSame(0xaa, 4);
      Send(syncHigh);
      Send(syncLow);
      Send(syncHigh);
      Send(syncLow);
      assert out == old(out) + Lead(syncHigh, syncLow);
      SendInfoPart(sector, track, syncLow);
      SendDataPart(buffer);
    }

    /** The header bytes, the label, and the header checksum. */
    method SendInfoPart(sector: octet, track: octet, syncLow: octet)
      modifies `out
      ensures var h := EncodeAll(Info(sector, track), syncLow);
              && |h| == 8
              && out == old(out) + (h + Repeat(0xaa, 36) + [HeaderSum(h, 0), HeaderSum(h, 1), HeaderSum(h, 2), HeaderSum(h, 3)])
    {
      hide EncodeAll, Xor, Info, Repeat, Clocked;
      var c0, c1, c2, c3 := SendInfo(sector, track, syncLow);
      ghost var h := EncodeAll(Info(sector, track), syncLow);
      assert Clocked(c0) == HeaderSum(h, 0) && Clocked(c1) == HeaderSum(h, 1);
      assert Clocked(c2) == HeaderSum(h, 2) && Clocked(c3) == HeaderSum(h, 3);
      SendSame(0xaa, 32);
      SendSum(c0, c1, c2, c3);
      SameConcat(0xaa, 32, 4);
    }

    /** The data checksum. */
    method SendDataPart(buffer: array<octet>)
      requires buffer.Length == SECTOR_BYTES
      modifies `out
      ensures var data := buffer[..];
              out == old(out) + (Repeat(0xaa, 4) + [DataSum(data, 0), DataSum(data, 1), DataSum(data, 2), DataSum(data, 3)])
    {
      hide Xor, Lane, Folded, Repeat, Clocked;
      var c0, c1, c2, c3 := FoldSector(buffer);
      SendSum(c0, c1, c2, c3);
    }

    /** The sector that comes next under the head. */
    static function NextSector(s: octet): octet {
      if s == LAST_SECTOR then 0 else s + 1
    }

    /** The track that is played for a request; requests past the last track get the last one. */
    function Played(track: octet): (t: octet)
      ensures t as int < TotalTracks()
    {
      if track as int >= TotalTracks() then lastTrack else track
    }

    method StepSector()
      requires curSector <= LAST_SECTOR
      modifies `curSector
      ensures curSector == NextSector(old(curSector)) && curSector <= LAST_SECTOR
    {
      if curSector == LAST_SECTOR {
        curSector := 0;
      } else {
        curSector := curSector + 1;
      }
    }

    /** What follows a sector on the track: the gap after the last one. */
    static function Gap(sector: octet): seq<octet> {
      if sector == LAST_SECTOR then Repeat(0xaa, 2 + GAP_SIZE / 2) else []
    }

    /**
     ADF_Read: the next sector of the track, in MFM, behind its sync words, and the gap behind the
     last one.
     */
    method Read(track0: octet, syncHigh0: octet, syncLow0: octet, buffer: array<octet>)
      requires Mounted() && buffer.Length == SECTOR_BYTES
      modifies `out, `marks, `curSector, buffer
      ensures Mounted() && curSector == NextSector(old(curSector))
      ensures var (hi, lo) := SyncFor(syncHigh0, syncLow0);
              var at, s := Offset(Played(track0), old(curSector)), old(curSector);
              at + SECTOR_BYTES <= |image|
              && out == old(out) + Lead(hi, lo) + Body(image[at..at + SECTOR_BYTES], s, Played(track0), lo) + Gap(s)
              && marks == old(marks) + if s == LAST_SECTOR then [|out| - |Gap(s)|] else []
    {
      hide HeaderBody, OddHalf, EvenHalf, Lead, NextSector, Offset, Played, SyncFor, TotalTracks, Gap;
      var track, syncHigh, syncLow := Played(track0), syncHigh0, syncLow0;
      var sector := curSector;
      StepSector();
      syncHigh, syncLow := FixSync(syncHigh, syncLow);
      var offset := Offset(track, sector);
      OffsetFits(track, sector);
      LoadSector(offset, buffer);
      SendHeader(buffer, sector, track, syncHigh, syncLow);
      out := out + OddHalf(buffer[..]);
      out := out + EvenHalf(buffer[..]);
      SendGap(sector);
    }

    /** The gap, its first word marked. */
    method SendGap(sector: octet)
      modifies `out, `marks
      ensures out == old(out) + Gap(sector)
      ensures marks == old(marks) + if sector == LAST_SECTOR then [|old(out)|] else []
    {
      hide Repeat;
      if sector == LAST_SECTOR {
        marks := marks + [|out|];
        SendSame(0xaa, 2);
        SendSame(0xaa, GAP_SIZE / 2 - 1);
        SendSame(0xaa, 1);
        SameConcat(0xaa, 2, GAP_SIZE / 2 - 1);
        SameConcat(0xaa, 1 + GAP_SIZE / 2, 1);
      }
    }

    /** Sync words some copy protections ask for are replaced by the standard one. */
    method FixSync(hi0: octet, lo0: octet) returns (hi: octet, lo: octet)
      ensures (hi, lo) == SyncFor(hi0, lo0)
    {
      hi, lo := hi0, lo0;
      if (hi == 0x00 && lo == 0x00) || (hi == 0x89 && lo == 0x14) || (hi == 0xa1 && lo == 0x44) {
        hi, lo := SYNC_HIGH, SYNC_LOW;
      }
    }

    method LoadSector(offset: nat, buffer: array<octet>)
      requires offset + SECTOR_BYTES <= |image| && buffer.Length == SECTOR_BYTES
      modifies buffer
      ensures buffer[..] == image[offset..offset + SECTOR_BYTES]
    {
      for i := 0 to SECTOR_BYTES
        invariant buffer[..i] == image[offset..offset + i]
      {
        buffer[i] := image[offset + i];
      }
      assert buffer[..SECTOR_BYTES] == buffer[..];
    }

    lemma OffsetFits(track: octet, sector: octet)
      requires Mounted() && track as int < TotalTracks() && sector <= LAST_SECTOR
      ensures Offset(track, sector) + SECTOR_BYTES <= |image|
    {
      var t, s := track as int, sector as int;
      assert s <= 10;
      assert t * TRACK_BYTES + TRACK_BYTES <= TotalTracks() * TRACK_BYTES;
    }

    // ---- writing back -----------------------------------------------------------------------

    /** A word from the host. */
    method ReceiveWord() returns (hi: octet, lo: octet)
      requires |wire| >= 2
      modifies `wire
      ensures hi == old(wire)[0] && lo == old(wire)[1] && wire == old(wire)[2..]
    {
      hi, lo := wire[0], wire[1];
      wire := wire[2..];
    }

    /** Write state 0: read words until the sync word or the end of the request. */
    method Hunt(reqsize0: nat)
      requires reqsize0 < 0x1_0000 && |wire| >= 2 * (reqsize0 + 1)
      modifies `wire, `writeState
      ensures var k := WordsToSync(old(wire), reqsize0 + 1);
              && k > 0 && wire == old(wire)[2 * k..]
              && writeState == if SyncAt(old(wire), k - 1) then 1 else old(writeState)
    {
      hide LowWord;
      ghost var was := wire;
      var reqsize := LowWord(reqsize0 + 1);
      ghost var k := 0;
      var sync := false;
      while true
        invariant 0 <= k <= reqsize0 && !sync && wire == was[2 * k..] && writeState == old(writeState)
        invariant reqsize == LowWord(reqsize0 + 1 - k)
        invariant k > 0 ==> reqsize != 0
        invariant forall j | 0 <= j < k :: !SyncAt(was, j)
        decreases reqsize0 + 1 - k
      {
        var hi, lo := ReceiveWord();
        assert hi == was[2 * k] && lo == was[2 * k + 1];
        k := k + 1;
        CountDown(reqsize0 + 2 - k);
        reqsize := LowWord(reqsize + 0xffff);
        if hi == SYNC_HIGH && lo == SYNC_LOW {
          sync := true;
        }
        assert sync <==> SyncAt(was, k - 1);
        if reqsize == 0 || sync {
          break;
        }
      }
      FirstSync(was, reqsize0 + 1, k);
      if sync {
        writeState := 1;
      }
    }

    /** The exclusive ors of the data bits of four lanes. */
    method Sums(rx: array<octet>, from: nat, n: nat) returns (cs: array<octet>)
      requires rx.Length == BODY_SIZE && n > 0 && from + 3 + 4 * (n - 1) < BODY_SIZE
      ensures fresh(cs) && cs.Length == 4
      ensures forall i | 0 <= i < 4 :: cs[i] == Lane(rx[..], from + i, n) & 0x55
    {
      hide Xor;
      cs := new octet[4](_ => 0);
      for j := 0 to n
        invariant forall i | 0 <= i < 4 :: cs[i] == Lane(rx[..], from + i, j)
      {
        for i := 0 to 4
          invariant forall l | 0 <= l < i :: cs[l] == Lane(rx[..], from + l, j + 1)
          invariant forall l | i <= l < 4 :: cs[l] == Lane(rx[..], from + l, j)
        {
          cs[i] := Xor(cs[i], rx[from + i + 4 * j]);
        }
      }
      KeepDataBits(cs);
    }

    method KeepDataBits(cs: array<octet>)
      requires cs.Length == 4
      modifies cs
      ensures forall i | 0 <= i < 4 :: cs[i] == old(cs[i]) & 0x55
    {
      for i := 0 to 4
        invariant forall l | 0 <= l < i :: cs[l] == old(cs[l]) & 0x55
        invariant forall l | i <= l < 4 :: cs[l] == old(cs[l])
      {
        cs[i] := cs[i] & 0x55;
      }
    }

    /** A stretch of the buffer against its checksum. */
    method CheckSums(rx: array<octet>, from: nat, n: nat, at: nat) returns (ok: bool)
      requires rx.Length == BODY_SIZE && n > 0 && from + 3 + 4 * (n - 1) < BODY_SIZE && at + 8 <= BODY_SIZE
      ensures ok <==> forall i | 0 <= i < 4 :: SumFits(rx[..], i, from, n, at)
    {
      hide Xor, Lane, Decode;
      var cs := Sums(rx, from, n);
      ok := true;
      for i := 0 to 4
        invariant forall l | 0 <= l < 4 :: cs[l] == Lane(rx[..], from + l, n) & 0x55
        invariant ok <==> forall l | 0 <= l < i :: SumFits(rx[..], l, from, n, at)
      {
        var p := Decode(rx[at + i], rx[at + i + 4]);
        assert p == cs[i] <==> SumFits(rx[..], i, from, n, at);
        if p != cs[i] {
          ok := false;
        }
      }
    }

    /** All checks of a received buffer. */
    method Check(rx: array<octet>, track: octet) returns (ok: bool)
      requires rx.Length == BODY_SIZE
      ensures ok <==> Accepted(rx[..], track, TotalTracks())
    {
      hide ParamsFit, SumFits;
      ok := CheckParams(rx, track);
      if !ok {
        return;
      }
      ok := CheckSums(rx, 0, 10, 0x28);
      if !ok {
        return;
      }
      ok := CheckSums(rx, DATA_AT, 0x100, 0x30);
    }

    method CheckParams(rx: array<octet>, track: octet) returns (ok: bool)
      requires rx.Length == BODY_SIZE
      ensures ok <==> ParamsFit(rx[..], track, TotalTracks())
    {
      hide Decode, TotalTracks;
      ghost var body := rx[..];
      var p0, p1 := Decode(rx[0], rx[4]), Decode(rx[1], rx[5]);
      var p2, p3 := Decode(rx[2], rx[6]), Decode(rx[3], rx[7]);
      assert p0 == Param(body, 0) && p1 == Param(body, 1) && p2 == Param(body, 2) && p3 == Param(body, 3);
      if p0 != 0xff || p1 as int >= TotalTracks() || p2 > 10 || p3 > 11 || p3 == 0 {
        return false;
      }
      ok := p1 == track;
    }

    /** The sector decoded over the odd half of its own encoding. */
    method DecodeInPlace(rx: array<octet>)
      requires rx.Length == BODY_SIZE
      modifies rx
      ensures rx[DATA_AT..EVEN_AT] == Stored(old(rx[..]))
    {
      hide Decode;
      ghost var was := rx[..];
      for i := 0 to SECTOR_BYTES
        invariant forall k | 0 <= k < i :: rx[DATA_AT + k] == Stored(was)[k]
        invariant forall k | DATA_AT + i <= k < BODY_SIZE :: rx[k] == was[k]
      {
        rx[DATA_AT + i] := Decode(rx[DATA_AT + i], rx[EVEN_AT + i]);
      }
    }

    /** What a received buffer makes of the image. */
    function Absorbed(rx: seq<octet>, track: octet): seq<octet>
      requires Mounted() && |rx| == BODY_SIZE
      reads `image, `curSector
    {
      if Accepted(rx, track, TotalTracks()) && !readOnly then
        OffsetFits(track, Param(rx, 2));
        Overlay(image, Offset(track, Param(rx, 2)), Stored(rx))
      else image
    }

    /**
     Write state 1: the second sync word and a whole sector behind it, if the request is long
     enough; see ReadsBeyond for the one that is a word short.
     */
    method Receive(track: octet, reqsize0: nat)
      requires Mounted() && reqsize0 < 0x1_0000
      requires |wire| >= 2 + BODY_SIZE
      modifies `image, `wire, `writeState
      ensures Mounted() && writeState == 0
      ensures var request := (reqsize0 + 1) % 0x1_0000;
              && wire == old(wire)[2 * Consumed(old(wire), request)..]
              && image == if request >= ADF_WRITE_LEN && SyncAt(old(wire), 0)
                          then old(Absorbed(wire[2..2 + BODY_SIZE], track)) else old(image)
    {
      hide Accepted, Decode, Stored, Offset;
      var reqsize := (reqsize0 + 1) % 0x1_0000;
      writeState := 0;
      if reqsize < ADF_WRITE_LEN {
        return;
      }
      var hi, lo := ReceiveWord();
      if hi != SYNC_HIGH || lo != SYNC_LOW {
        return;
      }
      var rx := ReadBuffer();
      ghost var body := rx[..];
      var ok := Check(rx, track);
      assert body == old(wire)[2..2 + BODY_SIZE];
      if !ok || readOnly {
        assert image == old(Absorbed(wire[2..2 + BODY_SIZE], track));
        return;
      }
      AcceptedPlace(body, track, TotalTracks());
      assert Decode(rx[2], rx[6]) == Param(body, 2);
      var offset := Offset(track, Decode(rx[2], rx[6]));
      OffsetFits(track, Param(body, 2));
      DecodeInPlace(rx);
      assert rx[DATA_AT..EVEN_AT] == Stored(body);
      image := Overlay(image, offset, rx[DATA_AT..EVEN_AT]);
    }

    /** The rest of a sector from the host. */
    method ReadBuffer() returns (rx: array<octet>)
      requires |wire| >= BODY_SIZE
      modifies `wire
      ensures fresh(rx) && rx.Length == BODY_SIZE
      ensures rx[..] == old(wire)[..BODY_SIZE] && wire == old(wire)[BODY_SIZE..]
    {
      rx := new octet[BODY_SIZE](i requires 0 <= i < BODY_SIZE && |wire| >= BODY_SIZE reads this => wire[i]);
      wire := wire[BODY_SIZE..];
    }

    /** ADF_Write. */
    method Write(track: octet, reqsize0: nat)
      requires Mounted() && reqsize0 < 0x1_0000
      requires writeState == 0 ==> |wire| >= 2 * (reqsize0 + 1)
      requires writeState == 1 ==> |wire| >= 2 + BODY_SIZE
      modifies `image, `wire, `writeState
      ensures Mounted()
      ensures old(writeState) == 0 ==>
                var k := WordsToSync(old(wire), reqsize0 + 1);
                && k > 0 && image == old(image) && wire == old(wire)[2 * k..]
                && writeState == if SyncAt(old(wire), k - 1) then 1 else 0
      ensures old(writeState) != 0 ==> writeState == 0
      ensures old(writeState) == 1 ==>
                var request := (reqsize0 + 1) % 0x1_0000;
                && wire == old(wire)[2 * Consumed(old(wire), request)..]
                && image == if request >= ADF_WRITE_LEN && SyncAt(old(wire), 0)
                            then old(Absorbed(wire[2..2 + BODY_SIZE], track)) else old(image)
      ensures old(writeState) > 1 ==> image == old(image) && wire == old(wire)
    {
      hide Absorbed, WordsToSync;
      if writeState == 0 {
        Hunt(reqsize0);
      } else if writeState == 1 {
        Receive(track, reqsize0);
      } else {
        writeState := 0;
      }
    }

    /**
     A sector as ADF_Read emits it, behind some words of a gap, sent back in two requests: it is
     stored where it came from, nothing else in the image changes, and what follows is left.
     */
    method WriteSector(ghost data: seq<octet>, ghost sector: octet, track: octet, ghost gap: nat, ghost rest: seq<octet>)
      requires Mounted() && writeState == 0 && !readOnly && gap <= 541
      requires |data| == SECTOR_BYTES && sector <= LAST_SECTOR && track as int < TotalTracks()
      requires wire == Repeat(0xaa, 2 * gap) + Lead(SYNC_HIGH, SYNC_LOW) + Body(data, sector, track, SYNC_LOW) + rest
      modifies `image, `wire, `writeState
      ensures Mounted() && writeState == 0 && wire == rest
      ensures Offset(track, sector) + SECTOR_BYTES <= |old(image)|
              && image == Overlay(old(image), Offset(track, sector), data)
    {
      hide Body, Accepted, Stored, Param, Offset, WordsToSync, Lead, Overlay, Repeat;
      ghost var body := Body(data, sector, track, SYNC_LOW);
      LeadSync(gap, body, rest);
      OffsetFits(track, sector);
      Write(track, 543);
      assert wire == [SYNC_HIGH, SYNC_LOW] + body + rest;
      assert wire[2..2 + BODY_SIZE] == body && wire[2 + BODY_SIZE..] == rest;
      EmittedIsAccepted(data, sector, track, SYNC_LOW, TotalTracks());
      Write(track, 540);
    }

    /** The same for a sector on its own. */
    method WriteBack(data: seq<octet>, sector: octet, track: octet)
      requires Mounted() && writeState == 0 && !readOnly
      requires |data| == SECTOR_BYTES && sector <= LAST_SECTOR && track as int < TotalTracks()
      requires wire == Lead(SYNC_HIGH, SYNC_LOW) + Body(data, sector, track, SYNC_LOW)
      modifies `image, `wire, `writeState
      ensures Mounted() && writeState == 0 && wire == []
      ensures Offset(track, sector) + SECTOR_BYTES <= |old(image)|
              && image == Overlay(old(image), Offset(track, sector), data)
    {
      hide Body, Offset, Lead, Overlay;
      assert wire == Repeat(0xaa, 0) + Lead(SYNC_HIGH, SYNC_LOW) + Body(data, sector, track, SYNC_LOW) + [];
      WriteSector(data, sector, track, 0, []);
    }
  }

  lemma AcceptedPlace(rx: seq<octet>, track: octet, totalTracks: nat)
    requires Accepted(rx, track, totalTracks)
    ensures Param(rx, 1) == track && track as int < totalTracks && Param(rx, 2) <= 10
  {
    hide Decode;
  }

  /** The count of words up to the first sync word, or all of them. */
  lemma {:induction false} FirstSync(bytes: seq<octet>, n: nat, k: nat)
    requires 2 * n <= |bytes| && 0 < k <= n
    requires forall j | 0 <= j < k - 1 :: !SyncAt(bytes, j)
    requires SyncAt(bytes, k - 1) || k == n
    ensures WordsToSync(bytes, n) == k
  {
    if k < n {
      FirstSync(bytes, n - 1, k);
    } else if n > 1 {
      NoSync(bytes, n - 1);
    }
  }

  lemma {:induction false} NoSync(bytes: seq<octet>, n: nat)
    requires 2 * n <= |bytes| && forall j | 0 <= j < n :: !SyncAt(bytes, j)
    ensures WordsToSync(bytes, n) == n
  {
    if n > 0 {
      NoSync(bytes, n - 1);
    }
  }

  /** The hunt through a gap and the lead of an emitted sector stops behind its first sync word. */
  lemma LeadSync(gap: nat, body: seq<octet>, rest: seq<octet>)
    requires |body| == BODY_SIZE && gap <= 541
    ensures var bytes := Repeat(0xaa, 2 * gap) + Lead(SYNC_HIGH, SYNC_LOW) + body + rest;
            && WordsToSync(bytes, 544) == gap + 3 && SyncAt(bytes, gap + 2)
            && bytes[2 * (gap + 3)..] == [SYNC_HIGH, SYNC_LOW] + body + rest
  {
    var front := Repeat(0xaa, 2 * gap) + Lead(SYNC_HIGH, SYNC_LOW);
    var bytes := front + body + rest;
    forall j | 0 <= j < gap + 2
      ensures !SyncAt(bytes, j)
    {
      assert front[2 * j] == 0xaa;
    }
    assert front[2 * gap + 4] == SYNC_HIGH && front[2 * gap + 5] == SYNC_LOW;
    FirstSync(bytes, 544, gap + 3);
    assert front[2 * gap + 6..] == [SYNC_HIGH, SYNC_LOW];
  }

  lemma SameConcat(b: octet, m: nat, n: nat)
    ensures Repeat(b, m) + Repeat(b, n) == Repeat(b, m + n)
  {
  }

  /** Preamble and two sync words. */
  function Lead(syncHigh: octet, syncLow: octet): seq<octet> {
    Repeat(0xaa, 4) + [syncHigh, syncLow, syncHigh, syncLow]
  }

  /** The sync word that is emitted for the one the host asks for. */
  function SyncFor(hi: octet, lo: octet): (octet, octet) {
    if (hi == 0x00 && lo == 0x00) || (hi == 0x89 && lo == 0x14) || (hi == 0xa1 && lo == 0x44) then (SYNC_HIGH, SYNC_LOW)
    else (hi, lo)
  }
}
