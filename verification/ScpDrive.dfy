/**
 Playing a flux image: a track holds several revolutions, sent in bursts that try to keep to
 512-byte boundaries of the file, over and over while the head stays on the track.
 */
module ScpDrive {
  import opened Bits
  import opened Sequences

  const MAX_WORDS: nat := 1024
  const BLOCK: nat := 512
  const MAX_REVOLUTIONS: nat := 5
  const TABLE_AT: nat := 0x10
  const TRACK_HEADER_SIZE: nat := 64

  /** Length in words and offset in bytes from the track header, of one revolution. */
  datatype Revolution = Revolution(length: nat, offset: nat)

  /** Four bytes of the file as a number, the lowest first. */
  function Number(file: seq<byte>, at: nat): nat
    requires at + 4 <= |file|
  {
    file[at] as int + 0x100 * file[at + 1] as int + 0x1_0000 * file[at + 2] as int + 0x100_0000 * file[at + 3] as int
  }

  /** The revolutions are in the file. */
  predicate Inside(file: seq<byte>, header: nat, revs: seq<Revolution>) {
    |file| < 0x1_0000_0000 && forall r | r in revs :: header + r.offset + 2 * r.length <= |file|
  }

  /** The flux words of a revolution, as bytes. */
  function Flux(file: seq<byte>, header: nat, r: Revolution): (s: seq<byte>)
    requires header + r.offset + 2 * r.length <= |file|
    ensures |s| == 2 * r.length
  {
    file[header + r.offset..header + r.offset + 2 * r.length]
  }

  /** What the head passes over in a number of turns, from the start of the first revolution. */
  function Turns(file: seq<byte>, header: nat, revs: seq<Revolution>, n: nat): seq<byte>
    requires Inside(file, header, revs) && |revs| > 0
  {
    if n == 0 then [] else Turns(file, header, revs, n - 1) + Flux(file, header, revs[(n - 1) % |revs|])
  }

  /** The bytes of one burst, for a number of words left and a position in the file. */
  function Burst(words: nat, offset: nat): nat {
    var wanted := 2 * (if words > MAX_WORDS then MAX_WORDS else words);
    if offset % BLOCK == 0 && wanted % BLOCK == 0 then wanted
    else
      var room := BLOCK - offset % BLOCK;
      var n := if wanted > room then room else wanted;
      n - n % 2
  }

  lemma BurstFacts(words: nat, offset: nat)
    ensures Burst(words, offset) % 2 == 0 && Burst(words, offset) <= 2 * words
    ensures Burst(words, offset) <= 2048
    ensures Burst(words, offset) == 0 <==> words == 0 || offset % 512 == 511
  {
  }

  /**
   How long a burst is. From a boundary a long revolution goes out 2048 bytes at a time, and one that
   ends on a boundary before that at once. Any other burst ends at the boundary that comes next, at
   the byte before it, or with the revolution.
   */
  lemma BurstSizes(words: nat, offset: nat)
    ensures offset % 512 == 0 && words >= 1024 ==> Burst(words, offset) == 2048
    ensures offset % 512 == 0 && words < 1024 && words % 256 == 0 ==> Burst(words, offset) == 2 * words
    ensures offset % 512 == 0 && words < 1024 && words % 256 != 0 ==>
              Burst(words, offset) == if words < 256 then 2 * words else 512
    ensures offset % 512 != 0 ==>
              offset % 512 + Burst(words, offset) <= 512
              && (Burst(words, offset) == 2 * words || offset % 512 + Burst(words, offset) >= 511)
  {
  }

  /** From an odd position, a burst that is cut at the boundary leads to a position where nothing moves. */
  lemma OddGetsStuck(words: nat, offset: nat)
    requires offset % 2 == 1 && 2 * (if words > MAX_WORDS then MAX_WORDS else words) > BLOCK - offset % BLOCK
    ensures Burst(words, offset) < 2 * words
    ensures (offset + Burst(words, offset)) % BLOCK == 511
    ensures Burst(words - Burst(words, offset) / 2, offset + Burst(words, offset)) == 0
  {
    hide Burst;
    OddOffset(offset);
    CutBurst(words, offset, offset % BLOCK);
    LastByte(offset, offset % BLOCK);
    BurstFacts(words - Burst(words, offset) / 2, offset + Burst(words, offset));
  }

  lemma OddOffset(offset: nat)
    requires offset % 2 == 1
    ensures offset % BLOCK % 2 == 1
  {
    var q := offset / BLOCK;
    assert offset == BLOCK * q + offset % BLOCK && BLOCK * q == 2 * (256 * q);
  }

  /** A burst that is cut leaves out the odd byte before the boundary. */
  lemma CutBurst(words: nat, offset: nat, m: nat)
    requires m == offset % BLOCK && m % 2 == 1
    requires 2 * (if words > MAX_WORDS then MAX_WORDS else words) > BLOCK - m
    ensures Burst(words, offset) == BLOCK - m - 1
  {
  }

  lemma LastByte(offset: nat, m: nat)
    requires m == offset % BLOCK
    ensures (offset + (BLOCK - m - 1)) % BLOCK == 511
  {
    DivModUnique(offset + (BLOCK - m - 1), BLOCK, offset / BLOCK, 511);
  }

  /** What is left after a burst is delivered if all was to be, and not otherwise. */
  lemma OneBurst(words: nat, offset: nat)
    ensures Burst(words, offset) <= 2 * words && Burst(words, offset) % 2 == 0
    ensures Delivers(words, offset) <==> Delivers(words - Burst(words, offset) / 2, offset + Burst(words, offset))
    ensures Burst(words, offset) == 2 * words ==> Delivers(words, offset)
  {
    BurstFacts(words, offset);
  }

  /** From an even position every burst moves and leads to an even position again. */
  lemma EvenMovesOn(words: nat, offset: nat)
    requires offset % 2 == 0 && words > 0
    ensures Burst(words, offset) > 0 && (offset + Burst(words, offset)) % 2 == 0
  {
    hide Burst;
    BurstFacts(words, offset);
    EvenOffset(offset);
    EvenSum(offset, Burst(words, offset));
  }

  lemma EvenOffset(offset: nat)
    requires offset % 2 == 0
    ensures offset % 512 != 511
  {
  }

  lemma EvenSum(a: nat, b: nat)
    requires a % 2 == 0 && b % 2 == 0
    ensures (a + b) % 2 == 0
  {
  }

  /** Burst after burst, from a position on, everything that is left of a revolution is sent. */
  ghost predicate Delivers(words: nat, offset: nat) {
    BurstFacts(words, offset);
    words == 0
    || (Burst(words, offset) > 0 && Delivers(words - Burst(words, offset) / 2, offset + Burst(words, offset)))
  }

  /** This is so exactly from an even position, or where all of it ends before the next boundary. */
  lemma {:induction false} DeliversExactly(words: nat, offset: nat)
    ensures Delivers(words, offset) <==> offset % 2 == 0 || offset % 512 + 2 * words <= 512
  {
    BurstFacts(words, offset);
    var n := Burst(words, offset);
    if words == 0 {
    } else if offset % 2 == 0 {
      EvenMovesOn(words, offset);
      DeliversExactly(words - n / 2, offset + n);
    } else if offset % BLOCK + 2 * words <= BLOCK {
      ShortAtOnce(words, offset);
    } else {
      OddGetsStuck(words, offset);
      assert !Delivers(words - n / 2, offset + n);
    }
  }

  /** A short revolution that ends before the boundary is one burst, from an odd position too. */
  lemma ShortAtOnce(words: nat, offset: nat)
    requires 0 < words && offset % 2 == 1 && offset % BLOCK + 2 * words <= BLOCK
    ensures Burst(words, offset) == 2 * words
  {
  }

  /** At an odd offset the length decides: 256 words get stuck, 255 do not. */
  lemma OddInputs()
    ensures !Delivers(256, 1) && Delivers(255, 1)
  {
    DeliversExactly(256, 1);
    DeliversExactly(255, 1);
  }

  lemma FluxPart(file: seq<byte>, header: nat, r: Revolution, at: nat, n: nat)
    requires header + r.offset + 2 * r.length <= |file| && at + n <= 2 * r.length
    ensures header + r.offset + at + n <= |file|
    ensures Flux(file, header, r)[at..at + n] == file[header + r.offset + at..header + r.offset + at + n]
  {
    var from := header + r.offset;
    SliceOfSlice(file, from, from + 2 * r.length, at, at + n);
  }

  /** Sending the next part of a revolution extends what was passed over by it. */
  lemma MorePassed(file: seq<byte>, header: nat, revs: seq<Revolution>, turns: nat, at: nat, n: nat,
                   heard: seq<byte>, skipped: nat)
    requires Inside(file, header, revs) && |revs| > 0
    requires revs[turns % |revs|] in revs && at + n <= 2 * revs[turns % |revs|].length
    requires var flux := Flux(file, header, revs[turns % |revs|]);
             var passed := Turns(file, header, revs, turns) + flux[..at];
             skipped <= |passed| && heard == passed[skipped..]
    ensures var flux := Flux(file, header, revs[turns % |revs|]);
            var passed := Turns(file, header, revs, turns) + flux[..at + n];
            skipped <= |passed| && heard + flux[at..at + n] == passed[skipped..]
  {
    hide Turns, Flux;
    var flux := Flux(file, header, revs[turns % |revs|]);
    assert flux[..at + n] == flux[..at] + flux[at..at + n];
  }

  /** At its end a revolution is one more turn, and the next one follows. */
  lemma WholeTurn(file: seq<byte>, header: nat, revs: seq<Revolution>, turns: nat)
    requires Inside(file, header, revs) && |revs| > 0
    ensures var r, next := turns % |revs|, (turns + 1) % |revs|;
            && revs[r] in revs && revs[next] in revs
            && next == (if r + 1 == |revs| then 0 else r + 1)
            && Turns(file, header, revs, turns) + Flux(file, header, revs[r])[..2 * revs[r].length]
               == Turns(file, header, revs, turns + 1) + Flux(file, header, revs[next])[..0]
  {
    ModStep(turns, |revs|);
  }

  lemma Appended(s: seq<byte>, more: seq<byte>, from: nat)
    requires from <= |s|
    ensures (s + more)[from..] == s[from..] + more
  {
  }

  lemma ModStep(n: nat, d: nat)
    requires d > 0
    ensures (n + 1) % d == if n % d + 1 == d then 0 else n % d + 1
  {
    var q, r := n / d, n % d;
    if r + 1 == d {
      DivModUnique(n + 1, d, q + 1, 0);
    } else {
      DivModUnique(n + 1, d, q, r + 1);
    }
  }

  lemma CyclicTurns(n: nat, d: nat)
    requires d > 0
    ensures (n + d) % d == n % d
  {
    DivModUnique(n + d, d, n / d + 1, n % d);
  }

  class Drive {
    const file: seq<byte>
    const startTrack: nat
    const endTrack: nat
    const revolutions: nat
    var curTrack: nat
    var headerAddr: nat
    var tlo: seq<Revolution>
    var curRev: nat
    var curOffset: nat
    var sent: seq<byte>
    var marks: seq<nat>
    ghost var turns: nat
    ghost var mark: nat
    ghost var skipped: nat

    /** A track is under the head and its revolutions are in the file. */
    predicate OnTrack()
      reads `headerAddr, `tlo
    {
      && headerAddr != 0 && 1 <= revolutions <= MAX_REVOLUTIONS && |tlo| == MAX_REVOLUTIONS
      && Inside(file, headerAddr, tlo[..revolutions])
    }

    /**
     Since the head came to the track, at some distance into the first revolution, everything it
     passed over was sent exactly once and in order, revolution after revolution.
     */
    ghost predicate Faithful()
      reads `headerAddr, `tlo, `curRev, `curOffset, `sent, `turns, `mark, `skipped
    {
      OnTrack() ==>
        && curRev == turns % revolutions
        && curOffset <= tlo[curRev].length
        && mark <= |sent|
        && skipped <= |Passed()|
        && sent[mark..] == Passed()[skipped..]
    }

    /** What the head has passed over on this track. */
    ghost function Passed(): seq<byte>
      requires OnTrack() && curRev < revolutions && curOffset <= tlo[curRev].length
      reads `headerAddr, `tlo, `curRev, `curOffset, `turns
    {
      Turns(file, headerAddr, tlo[..revolutions], turns)
      + Flux(file, headerAddr, tlo[..revolutions][curRev])[..2 * curOffset]
    }

    /** Where the next burst comes from. */
    function FileOffset(): nat
      requires OnTrack() && curRev < revolutions
      reads `headerAddr, `tlo, `curRev, `curOffset
    {
      headerAddr + tlo[curRev].offset + 2 * curOffset
    }

    constructor (file: seq<byte>, startTrack: nat, endTrack: nat, revolutions: nat)
      requires startTrack <= endTrack < 256 && 1 <= revolutions <= MAX_REVOLUTIONS
      ensures Faithful() && headerAddr == 0 && sent == [] && marks == []
    {
      this.file, this.startTrack, this.endTrack, this.revolutions := file, startTrack, endTrack, revolutions;
      curTrack, headerAddr, tlo, curRev, curOffset, sent, marks := 255, 0, [], 0, 0, [], [];
      turns, mark, skipped := 0, 0, 0;
    }

    /** The track table and the track header lie in the file, and so do the revolutions of a good header. */
    predicate TrackInFile(track: nat)
      requires revolutions <= MAX_REVOLUTIONS
    {
      startTrack <= track <= endTrack ==>
        && TABLE_AT + (track - startTrack) * 4 + 4 <= |file|
        && var at := Le32(file, TABLE_AT + (track - startTrack) * 4);
        (at != 0 ==> at + TRACK_HEADER_SIZE <= |file|
                     && (GoodHeader(at, track) ==> Inside(file, at, Header(at)[..revolutions])))
    }

    /** The header says "TRK" and the right track. */
    predicate GoodHeader(at: nat, track: nat)
      requires at + TRACK_HEADER_SIZE <= |file|
    {
      file[at] == 0x54 && file[at + 1] == 0x52 && file[at + 2] == 0x4b && file[at + 3] == track
    }

    function Header(at: nat): (revs: seq<Revolution>)
      requires at + TRACK_HEADER_SIZE <= |file|
      ensures |revs| == MAX_REVOLUTIONS
    {
      seq(MAX_REVOLUTIONS, i requires 0 <= i < MAX_REVOLUTIONS && at + TRACK_HEADER_SIZE <= |file| =>
        Revolution(Le32(file, at + 4 + 12 * i + 4), Le32(file, at + 4 + 12 * i + 8)))
    }

    /** A header in bytes: "TRK", the track, then length and offset of each revolution in twelve bytes. */
    lemma HeaderBytes(at: nat, track: nat, r: nat)
      requires at + 64 <= |file| && r < 5
      ensures GoodHeader(at, track) <==> file[at..at + 3] == [0x54, 0x52, 0x4b] && file[at + 3] == track
      ensures Header(at)[r].length == Number(file, at + 8 + 12 * r)
      ensures Header(at)[r].offset == Number(file, at + 12 + 12 * r)
    {
    }

    /** The part of SCP_Read for a changed track: near the old offset, in the first revolution. */
    method Step(track: nat)
      requires 1 <= revolutions <= MAX_REVOLUTIONS && track < 256 && TrackInFile(track) && |file| < 0x1_0000_0000
      modifies `curTrack, `headerAddr, `tlo, `curRev, `curOffset, `turns, `mark, `skipped
      ensures curTrack == track && Faithful()
      ensures headerAddr != 0 <==>
                startTrack <= track <= endTrack
                && var at := Number(file, 16 + 4 * (track - startTrack)); at != 0 && GoodHeader(at, track)
      ensures headerAddr != 0 ==> headerAddr == Number(file, 16 + 4 * (track - startTrack)) <= |file| - 64
      ensures headerAddr != 0 ==> OnTrack() && curRev == 0 && tlo == Header(headerAddr)
                                  && (curOffset == old(curOffset) || curOffset == 0)
    {
      curTrack := track;
      mark := |sent|;
      if track > endTrack {
        headerAddr := 0;
      } else if track < startTrack {
        headerAddr := 0;
      } else {
        var offset := Le32(file, TABLE_AT + (track - startTrack) * 4);
        headerAddr := offset;
        if offset != 0 {
          LoadHeader(track);
        }
      }
    }

    /** Read the track header, and start in its first revolution. */
    method LoadHeader(track: nat)
      requires 1 <= revolutions <= MAX_REVOLUTIONS && |file| < 0x1_0000_0000 && mark == |sent|
      requires headerAddr != 0 && headerAddr + TRACK_HEADER_SIZE <= |file|
      requires GoodHeader(headerAddr, track) ==> Inside(file, headerAddr, Header(headerAddr)[..revolutions])
      modifies `headerAddr, `tlo, `curRev, `curOffset, `turns, `skipped
      ensures Faithful() && curRev == 0
      ensures headerAddr == (if GoodHeader(old(headerAddr), track) then old(headerAddr) else 0)
      ensures headerAddr != 0 ==> OnTrack() && tlo == Header(headerAddr)
      ensures curOffset == old(curOffset) || curOffset == 0
    {
      hide Le32, Inside, Turns, Flux;
      var offset := headerAddr;
      tlo := Header(offset);
      if !(file[offset] == 0x54 && file[offset + 1] == 0x52 && file[offset + 2] == 0x4b) {
        headerAddr := 0;
      }
      if file[offset + 3] != track {
        headerAddr := 0;
      }
      curRev := 0;
      if curOffset > tlo[0].length {
        curOffset := 0;
      }
      turns, skipped := 0, 2 * curOffset;
      if headerAddr != 0 {
        FromStart();
      }
    }

    /** In the first turn what was passed is the start of the first revolution. */
    lemma FromStart()
      requires OnTrack() && curRev == turns == 0 && curOffset <= tlo[0].length
      ensures |Passed()| == 2 * curOffset
    {
      InsideAll();
    }

    /** The flux that the next burst sends. */
    ghost function NextBurst(): (s: seq<byte>)
      requires OnTrack() && curRev < revolutions && curOffset <= tlo[curRev].length
      reads `headerAddr, `tlo, `curRev, `curOffset
      ensures |s| == Burst(tlo[curRev].length - curOffset, FileOffset())
    {
      InsideAll();
      BurstFacts(tlo[curRev].length - curOffset, FileOffset());
      var n := Burst(tlo[curRev].length - curOffset, FileOffset());
      Flux(file, headerAddr, tlo[..revolutions][curRev])[2 * curOffset..2 * curOffset + n]
    }

    /** All that is left of the revolution under the head will be sent. */
    ghost predicate Deliverable()
      requires OnTrack() && curRev < revolutions && curOffset <= tlo[curRev].length
      reads `headerAddr, `tlo, `curRev, `curOffset
    {
      Delivers(tlo[curRev].length - curOffset, FileOffset())
    }

    /** All of any revolution of the track will be sent once it comes under the head. */
    ghost predicate AllDeliverable()
      requires OnTrack()
      reads `headerAddr, `tlo
    {
      forall r | 0 <= r < revolutions :: Delivers(tlo[r].length, headerAddr + tlo[r].offset)
    }

    /**
     The part of SCP_Read that sends: a sync marker at the start of a revolution, and the next
     burst of the revolution under the head. The call moves on exactly unless the burst would start
     one byte before a 512-byte boundary of the file.
     */
    method Transfer()
      requires OnTrack() && Faithful()
      modifies `curRev, `curOffset, `sent, `marks, `turns
      ensures OnTrack() && Faithful()
      ensures sent == old(sent) + old(NextBurst())
      ensures marks == old(marks) + if old(curOffset) == 0 then [|old(sent)|] else []
      ensures turns == old(turns) ==> curRev == old(curRev) && curOffset == old(curOffset) + old(|NextBurst()|) / 2
      ensures turns == old(turns) || (turns == old(turns) + 1 && curOffset == 0)
      ensures turns == old(turns) && curOffset == old(curOffset)
              <==> old(curOffset < tlo[curRev].length && FileOffset() % 512 == 511)
      ensures turns == old(turns) ==> (Deliverable() <==> old(Deliverable()))
      ensures turns == old(turns) + 1 ==> old(Deliverable())
    {
      hide Inside, Burst, Flux, Turns, Faithful, NextBurst, Delivers;
      Bounds();
      BurstFacts(tlo[curRev].length - curOffset, FileOffset());
      OneBurst(tlo[curRev].length - curOffset, FileOffset());
      if curOffset == 0 {
        marks := marks + [|sent|];
      }
      var curLen := tlo[curRev].length;
      SendBurst();
      if curOffset >= curLen {
        EndTurn();
      }
    }

    /**
     Call after call while the head stays on the track: the turn is finished if the rest of the
     revolution can be delivered.
     */
    method PlayTurn()
      requires OnTrack() && Faithful() && Deliverable()
      modifies `curRev, `curOffset, `sent, `marks, `turns
      ensures OnTrack() && Faithful()
      ensures turns == old(turns) + 1 && curOffset == 0 && curRev < revolutions
      ensures old(sent) <= sent
    {
      hide Inside, Faithful, NextBurst, Delivers;
      Bounds();
      ghost var rev, len := curRev, tlo[curRev].length;
      NotStuck();
      Transfer();
      Bounds();
      while curOffset != 0
        invariant OnTrack() && Faithful() && old(sent) <= sent
        invariant curRev < revolutions && curOffset <= tlo[curRev].length
        invariant turns == if curOffset == 0 then old(turns) + 1 else old(turns)
        invariant curOffset != 0 ==> curRev == rev && curOffset <= len && Deliverable()
        decreases if curOffset == 0 then 0 else 1 + len - curOffset
      {
        NotStuck();
        Transfer();
        Bounds();
      }
    }

    lemma NotStuck()
      requires OnTrack() && curRev < revolutions && curOffset <= tlo[curRev].length && Deliverable()
      ensures !(curOffset < tlo[curRev].length && FileOffset() % BLOCK == 511)
    {
      BurstFacts(tlo[curRev].length - curOffset, FileOffset());
    }

    /**
     Turn after turn: with every revolution deliverable each turn is finished, and as many turns as
     there are revolutions lead back to the same one, all of them having passed in between.
     */
    method PlayTurns(n: nat)
      requires OnTrack() && Faithful() && Deliverable() && AllDeliverable()
      modifies `curRev, `curOffset, `sent, `marks, `turns
      ensures OnTrack() && Faithful() && curRev < revolutions && curOffset <= tlo[curRev].length && Deliverable()
      ensures turns == old(turns) + n && old(sent) <= sent
      ensures n > 0 ==> curOffset == 0
      ensures n == revolutions ==> curRev == old(curRev)
    {
      hide Inside, Faithful, NextBurst, Delivers;
      Bounds();
      FullCycle(turns);
      for i := 0 to n
        invariant OnTrack() && Faithful() && AllDeliverable() && old(sent) <= sent
        invariant turns == old(turns) + i && (i > 0 ==> curOffset == 0)
        invariant curRev < revolutions && curOffset <= tlo[curRev].length && Deliverable()
      {
        PlayTurn();
        assert FileOffset() == headerAddr + tlo[curRev].offset;
      }
      FullCycle(old(turns));
    }

    lemma FullCycle(from: nat)
      requires OnTrack() && Faithful()
      ensures curRev == turns % revolutions
      ensures turns == from + revolutions ==> turns % revolutions == from % revolutions
    {
      CyclicTurns(from, revolutions);
    }

    /** If it cannot, no number of calls finishes the turn. */
    method PlayStuck(calls: nat)
      requires OnTrack() && Faithful() && !Deliverable()
      modifies `curRev, `curOffset, `sent, `marks, `turns
      ensures OnTrack() && Faithful()
      ensures turns == old(turns) && curRev == old(curRev) && !Deliverable()
    {
      hide Inside, Faithful, NextBurst, Delivers;
      Bounds();
      for i := 0 to calls
        invariant OnTrack() && Faithful() && turns == old(turns) && curRev == old(curRev) && curRev < revolutions
        invariant curOffset <= tlo[curRev].length && !Deliverable()
      {
        Transfer();
        Bounds();
      }
    }

    lemma Bounds()
      requires OnTrack() && Faithful()
      ensures curRev < revolutions && curOffset <= tlo[curRev].length
    {
    }

    /** Send one burst and move the offset over it. */
    method SendBurst()
      requires OnTrack() && Faithful()
      modifies `curOffset, `sent
      ensures OnTrack() && Faithful()
      ensures sent == old(sent) + old(NextBurst()) && curOffset == old(curOffset) + old(|NextBurst()|) / 2
    {
      hide Inside, Burst, Flux, Turns;
      InsideAll();
      var offset := headerAddr + tlo[curRev].offset + curOffset * 2;
      BurstFacts(tlo[curRev].length - curOffset, offset);
      var n := BurstLength(tlo[curRev].length - curOffset, offset);
      ghost var revs := tlo[..revolutions];
      MorePassed(file, headerAddr, revs, turns, 2 * curOffset, n, sent[mark..], skipped);
      FluxPart(file, headerAddr, revs[curRev], 2 * curOffset, n);
      SendFile(offset, n);
      Appended(old(sent), file[offset..offset + n], mark);
      curOffset := curOffset + n / 2;
    }

    /** The end of a revolution. */
    method EndTurn()
      requires OnTrack() && Faithful() && curOffset == tlo[curRev].length
      modifies `curRev, `curOffset, `turns
      ensures OnTrack() && Faithful() && turns == old(turns) + 1 && curOffset == 0
    {
      hide Inside, Flux, Turns;
      WholeTurn(file, headerAddr, tlo[..revolutions], turns);
      curOffset := 0;
      turns := turns + 1;
      curRev := curRev + 1;
      if curRev == revolutions {
        curRev := 0;
      }
    }

    /** The length of the next burst, in bytes. */
    method BurstLength(words: nat, offset: nat) returns (n: nat)
      ensures n == Burst(words, offset)
    {
      n := words;
      if n > MAX_WORDS {
        n := MAX_WORDS;
      }
      n := n * 2;
      var offsetSub, lengthSub := offset % BLOCK, n % BLOCK;
      if offsetSub != 0 || lengthSub != 0 {
        offsetSub := BLOCK - offsetSub;
        if n > offsetSub {
          n := offsetSub;
        }
        n := n - n % 2;
      }
    }

    lemma InsideAll()
      requires OnTrack() && curRev < revolutions
      ensures tlo[..revolutions][curRev] == tlo[curRev] && |tlo[..revolutions]| == revolutions
      ensures headerAddr + tlo[curRev].offset + 2 * tlo[curRev].length <= |file|
    {
      assert tlo[..revolutions][curRev] in tlo[..revolutions];
    }

    method SendFile(offset: nat, n: nat)
      requires offset + n <= |file|
      modifies `sent
      ensures sent == old(sent) + file[offset..offset + n]
    {
      sent := sent + file[offset..offset + n];
    }
  }
}
