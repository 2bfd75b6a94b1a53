/**
 A UEF tape in the bytes of its file: which chunks carry bits, how many, and which, and what is
 read at a position inside each kind of chunk.
 */
module UefNumbers {
  import opened Bits
  import opened Sequences
  import opened UefSpec
  import opened UefTape

  /** The four bytes behind the two of the kind: the size of a chunk, lowest byte first. */
  function Size(file: seq<byte>, off: nat): nat
    requires off + 6 <= |file|
  {
    file[off + 2] as int + 0x100 * file[off + 3] as int + 0x1_0000 * file[off + 4] as int + 0x100_0000 * file[off + 5] as int
  }

  /** The chunk at an offset starts with these two bytes. */
  predicate Kind(file: seq<byte>, off: nat, first: byte, second: byte) {
    off + 6 <= |file| && file[off] == first && file[off + 1] == second
  }

  /** A duration in the file. */
  function Duration(file: seq<byte>, at: nat): nat
    requires at + 2 <= |file|
  {
    file[at] as int + 0x100 * file[at + 1] as int
  }

  lemma HeaderInNumbers(file: seq<byte>, off: nat)
    requires off + 6 <= |file|
    ensures Length(file, off) == Size(file, off) && NextChunk(file, off) == off + 6 + Size(file, off)
    ensures Id(file, off) == file[off] as int + 0x100 * file[off + 1] as int
  {
  }

  /** Where a tape ends: less than a chunk header left, a chunk FF FF, or the durations of a chunk cut off. */
  lemma EndInNumbers(file: seq<byte>, off: nat)
    ensures Ends(file, off) <==>
            || off + 6 > |file|
            || Kind(file, off, 0xff, 0xff)
            || ((Kind(file, off, 0x10, 0x01) || Kind(file, off, 0x12, 0x01)) && off + 8 > |file|)
            || (Kind(file, off, 0x11, 0x01) && off + 10 > |file|)
  {
  }

  /** The bits of a chunk are the start of the tape from there on, and the next chunk follows. */
  lemma ChunkFirst(file: seq<byte>, off: nat, rate: nat -> nat)
    requires WellFormed(file, off) && !Ends(file, off)
    ensures var next := off + 6 + Size(file, off);
            && next <= |file| && WellFormed(file, next)
            && Flatten(file, off, rate) == ChunkBits(file, off, rate) + Flatten(file, next, rate)
  {
    hide ChunkBits;
    HeaderInNumbers(file, off);
  }

  function Ones(n: nat): (bs: seq<bool>)
    ensures |bs| == n && forall i | 0 <= i < n :: bs[i]
  {
    seq(n, _ => true)
  }

  /** 10 01: a carrier tone. */
  lemma CarrierChunk(file: seq<byte>, off: nat, rate: nat -> nat)
    requires WellFormed(file, off) && Kind(file, off, 0x10, 0x01) && off + 8 <= |file|
    ensures var next := off + 6 + Size(file, off);
            && next <= |file| && WellFormed(file, next)
            && Flatten(file, off, rate) == Ones(rate(Duration(file, off + 6))) + Flatten(file, next, rate)
  {
    hide Flatten;
    EndInNumbers(file, off);
    HeaderInNumbers(file, off);
    ChunkFirst(file, off, rate);
    assert ChunkBits(file, off, rate) == Ones(rate(Duration(file, off + 6)));
  }

  /** 12 01: a gap. */
  lemma GapChunk(file: seq<byte>, off: nat, rate: nat -> nat)
    requires WellFormed(file, off) && Kind(file, off, 0x12, 0x01) && off + 8 <= |file|
    ensures var next := off + 6 + Size(file, off);
            && next <= |file| && WellFormed(file, next)
            && Flatten(file, off, rate) == Zeros(rate(Duration(file, off + 6))) + Flatten(file, next, rate)
  {
    hide Flatten;
    EndInNumbers(file, off);
    HeaderInNumbers(file, off);
    ChunkFirst(file, off, rate);
    assert ChunkBits(file, off, rate) == Zeros(rate(Duration(file, off + 6)));
  }

  /** 11 01: a carrier tone around two bytes 41. */
  lemma DummyChunk(file: seq<byte>, off: nat, rate: nat -> nat)
    requires WellFormed(file, off) && Kind(file, off, 0x11, 0x01) && off + 10 <= |file|
    ensures var next := off + 6 + Size(file, off);
            && next <= |file| && WellFormed(file, next)
            && Flatten(file, off, rate)
               == Ones(rate(Duration(file, off + 6))) + (Letter() + Letter()) + Ones(rate(Duration(file, off + 8)))
                  + Flatten(file, next, rate)
  {
    hide Flatten, ChunkBits, Le16, Le32, Letter;
    EndInNumbers(file, off);
    HeaderInNumbers(file, off);
    ChunkFirst(file, off, rate);
    DummyBits(file, off, rate);
  }

  lemma DummyBits(file: seq<byte>, off: nat, rate: nat -> nat)
    requires !Ends(file, off) && NextChunk(file, off) <= |file| && Kind(file, off, 0x11, 0x01) && off + 10 <= |file|
    ensures ChunkBits(file, off, rate)
            == Ones(rate(Duration(file, off + 6))) + (Letter() + Letter()) + Ones(rate(Duration(file, off + 8)))
  {
    hide Letter, Framed;
    TwoLetters();
    AllOnes(rate(Duration(file, off + 6)));
    AllOnes(rate(Duration(file, off + 8)));
  }

  lemma AllOnes(n: nat)
    ensures Ones(n) == Repeat(true, n)
  {
  }

  /** The byte 41 as it stands on the tape. */
  function Letter(): seq<bool> {
    [false, true, false, false, false, false, false, true, false, true]
  }

  lemma TwoLetters()
    ensures Framed([0x41, 0x41]) == Letter() + Letter()
  {
    hide Frame;
    FrameInNumbers(0x41);
    assert Frame(0x41) == Letter();
    assert [0x41, 0x41][1..] == [0x41];
    assert Framed([0x41]) == Letter() + Framed([]);
  }

  /** 00 01: data, each byte between a 0 and a 1, its bits from the lowest to the highest. */
  lemma DataChunk(file: seq<byte>, off: nat, rate: nat -> nat)
    requires WellFormed(file, off) && Kind(file, off, 0x00, 0x01)
    ensures var next := off + 6 + Size(file, off);
            && next <= |file| && WellFormed(file, next)
            && Flatten(file, off, rate) == Framed(file[off + 6..next]) + Flatten(file, next, rate)
  {
    hide Flatten, Framed;
    EndInNumbers(file, off);
    HeaderInNumbers(file, off);
    ChunkFirst(file, off, rate);
  }

  lemma FrameInNumbers(b: byte)
    ensures Frame(b) == [false, b % 2 == 1, b / 2 % 2 == 1, b / 4 % 2 == 1, b / 8 % 2 == 1, b / 16 % 2 == 1,
                         b / 32 % 2 == 1, b / 64 % 2 == 1, b / 128 % 2 == 1, true]
  {
    hide LowBits;
    SmallPowers();
    forall k | 0 <= k < 8
      ensures LowBits(b, 8)[k] <==> b / Pow2(k) % 2 == 1
    {
      LowBitsAt(b, 8, k);
    }
    assert |LowBits(b, 8)| == 8;
  }

  /** Any other chunk before the end carries nothing. */
  lemma OtherChunk(file: seq<byte>, off: nat, rate: nat -> nat)
    requires WellFormed(file, off) && !Ends(file, off)
    requires !Kind(file, off, 0x00, 0x01) && !Kind(file, off, 0x10, 0x01)
    requires !Kind(file, off, 0x11, 0x01) && !Kind(file, off, 0x12, 0x01)
    ensures var next := off + 6 + Size(file, off);
            next <= |file| && WellFormed(file, next) && Flatten(file, off, rate) == Flatten(file, next, rate)
  {
    hide Flatten;
    HeaderInNumbers(file, off);
    ChunkFirst(file, off, rate);
    assert ChunkBits(file, off, rate) == [];
  }

  // ---- bits at positions of the tape -------------------------------------------------------------

  /** A tape starts behind twelve bytes, */
  lemma TapeStarts(file: seq<byte>, rate: nat -> nat)
    requires WellFormed(file, 12)
    ensures Suffix(file, rate, 12, 0)
  {
    SuffixStart(file, rate);
  }

  /** and each chunk starts behind the one before it, and its bits behind those of that one. */
  lemma TapeGoesOn(file: seq<byte>, rate: nat -> nat, off: nat, at: nat)
    requires WellFormed(file, 12) && Suffix(file, rate, off, at) && !Ends(file, off)
    ensures NextChunk(file, off) <= |file|
    ensures Suffix(file, rate, off + 6 + Size(file, off), at + |ChunkBits(file, off, rate)|)
  {
    hide Flatten, ChunkBits, WellFormed;
    HeaderInNumbers(file, off);
    SuffixStep(file, rate, off, at);
  }

  /** How many bits that are. */
  lemma ChunkCount(file: seq<byte>, rate: nat -> nat, off: nat)
    requires !Ends(file, off) && NextChunk(file, off) <= |file|
    ensures Kind(file, off, 0x10, 0x01) || Kind(file, off, 0x12, 0x01) ==>
              off + 8 <= |file| && |ChunkBits(file, off, rate)| == rate(Duration(file, off + 6))
    ensures Kind(file, off, 0x11, 0x01) ==>
              off + 10 <= |file|
              && |ChunkBits(file, off, rate)| == rate(Duration(file, off + 6)) + 20 + rate(Duration(file, off + 8))
    ensures Kind(file, off, 0x00, 0x01) ==> |ChunkBits(file, off, rate)| == 10 * Size(file, off)
    ensures || Kind(file, off, 0x00, 0x01) || Kind(file, off, 0x10, 0x01)
            || Kind(file, off, 0x11, 0x01) || Kind(file, off, 0x12, 0x01)
            || |ChunkBits(file, off, rate)| == 0
  {
    hide ChunkBits;
    EndInNumbers(file, off);
    ChunkSize(file, off, rate);
  }

  /** A position a number of bits behind the start of a chunk. */
  lemma AtSuffix(file: seq<byte>, rate: nat -> nat, off: nat, at: nat, k: nat)
    requires WellFormed(file, 12) && Suffix(file, rate, off, at)
    ensures BitAt(Flatten(file, 12, rate), at + k) == BitAt(Flatten(file, off, rate), k)
  {
    hide Flatten, WellFormed;
    var all := Flatten(file, 12, rate);
    if at + k < |all| {
      assert all[at..][k] == all[at + k];
    }
  }

  lemma FrontBit(a: seq<bool>, rest: seq<bool>, k: nat)
    requires k < |a|
    ensures BitAt(a + rest, k) == a[k]
  {
  }

  /** The bit at a position inside a chunk that carries bits, from the bytes of the file. */
  ghost predicate ChunkBit(file: seq<byte>, off: nat, rate: nat -> nat, k: nat, b: bool) {
    && (Kind(file, off, 0x10, 0x01) && off + 8 <= |file| && k < rate(Duration(file, off + 6)) ==> b)
    && (Kind(file, off, 0x12, 0x01) && off + 8 <= |file| && k < rate(Duration(file, off + 6)) ==> !b)
    && (Kind(file, off, 0x11, 0x01) && off + 10 <= |file| ==>
          var pre, post := rate(Duration(file, off + 6)), rate(Duration(file, off + 8));
          && (k < pre || pre + 20 <= k < pre + 20 + post ==> b)
          && (pre <= k < pre + 20 ==> (b <==> (k - pre) % 10 in {1, 7, 9})))
    && (Kind(file, off, 0x00, 0x01) && k < 10 * Size(file, off) && off + 6 + Size(file, off) <= |file| ==>
          var v: nat := file[off + 6 + k / 10];
          b == [false, v % 2 == 1, v / 2 % 2 == 1, v / 4 % 2 == 1, v / 8 % 2 == 1, v / 16 % 2 == 1,
                v / 32 % 2 == 1, v / 64 % 2 == 1, v / 128 % 2 == 1, true][k % 10])
  }

  lemma CarrierBit(file: seq<byte>, off: nat, rate: nat -> nat, k: nat)
    requires WellFormed(file, off) && Kind(file, off, 0x10, 0x01) && off + 8 <= |file| && k < rate(Duration(file, off + 6))
    ensures BitAt(Flatten(file, off, rate), k)
  {
    hide Flatten, WellFormed;
    CarrierChunk(file, off, rate);
  }

  lemma GapBit(file: seq<byte>, off: nat, rate: nat -> nat, k: nat)
    requires WellFormed(file, off) && Kind(file, off, 0x12, 0x01) && off + 8 <= |file| && k < rate(Duration(file, off + 6))
    ensures !BitAt(Flatten(file, off, rate), k)
  {
    hide Flatten, WellFormed;
    GapChunk(file, off, rate);
  }

  lemma DummyBit(file: seq<byte>, off: nat, rate: nat -> nat, k: nat)
    requires WellFormed(file, off) && Kind(file, off, 0x11, 0x01) && off + 10 <= |file|
    requires k < rate(Duration(file, off + 6)) + 20 + rate(Duration(file, off + 8))
    ensures var pre := rate(Duration(file, off + 6));
            BitAt(Flatten(file, off, rate), k) <==> (k < pre || pre + 20 <= k || (k - pre) % 10 in {1, 7, 9})
  {
    hide Flatten, WellFormed;
    DummyChunk(file, off, rate);
    var pre := rate(Duration(file, off + 6));
    var a, c := Ones(pre) + (Letter() + Letter()), Ones(rate(Duration(file, off + 8)));
    FrontBit(a + c, Flatten(file, off + 6 + Size(file, off), rate), k);
    if pre <= k < pre + 20 {
      LetterBit(k - pre);
      assert (a + c)[k] == (Letter() + Letter())[k - pre];
    }
  }

  lemma LetterBit(j: nat)
    requires j < 20
    ensures (Letter() + Letter())[j] <==> j % 10 in {1, 7, 9}
  {
  }

  lemma DataBit(file: seq<byte>, off: nat, rate: nat -> nat, k: nat)
    requires WellFormed(file, off) && Kind(file, off, 0x00, 0x01) && k < 10 * Size(file, off)
    ensures off + 6 + Size(file, off) <= |file|
    ensures BitAt(Flatten(file, off, rate), k) == Frame(file[off + 6 + k / 10])[k % 10]
  {
    hide Flatten, WellFormed, Framed, Frame, FrameBit;
    DataChunk(file, off, rate);
    var data := file[off + 6..off + 6 + Size(file, off)];
    FrontBit(Framed(data), Flatten(file, off + 6 + Size(file, off), rate), k);
    FramedAt(data, k);
    FrameAt(data[k / 10], k % 10);
  }

  lemma ChunkBitIs(file: seq<byte>, off: nat, rate: nat -> nat, k: nat)
    requires WellFormed(file, off)
    ensures ChunkBit(file, off, rate, k, BitAt(Flatten(file, off, rate), k))
  {
    hide Flatten, WellFormed, Frame, BitAt;
    if Kind(file, off, 0x10, 0x01) && off + 8 <= |file| && k < rate(Duration(file, off + 6)) {
      CarrierBit(file, off, rate, k);
    } else if Kind(file, off, 0x12, 0x01) && off + 8 <= |file| && k < rate(Duration(file, off + 6)) {
      GapBit(file, off, rate, k);
    } else if Kind(file, off, 0x11, 0x01) && off + 10 <= |file|
              && k < rate(Duration(file, off + 6)) + 20 + rate(Duration(file, off + 8)) {
      DummyBit(file, off, rate, k);
    } else if Kind(file, off, 0x00, 0x01) && k < 10 * Size(file, off) && off + 6 + Size(file, off) <= |file| {
      DataBit(file, off, rate, k);
      FrameInNumbers(file[off + 6 + k / 10]);
    }
  }

  /** GetBitAtPos inside a chunk that starts at bit position at. */
  method GetBitOfChunk(tape: Tape, ghost off: nat, ghost at: nat, position: nat) returns (b: bool)
    requires tape.Mounted() && tape.CacheOk() && Suffix(tape.file, tape.rate, off, at) && at <= position
    modifies tape
    ensures tape.CacheOk() && ChunkBit(tape.file, off, tape.rate, position - at, b)
  {
    hide Flatten, WellFormed, ChunkBit;
    b := tape.GetBit(position);
    AtSuffix(tape.file, tape.rate, off, at, position - at);
    ChunkBitIs(tape.file, off, tape.rate, position - at);
  }

  /** The byte for the core, bit by bit. */
  lemma PackedInNumbers(tape: seq<bool>, k: nat)
    ensures PackedByte(tape, k)
            == 128 * BitValue(BitAt(tape, 8 * k)) + 64 * BitValue(BitAt(tape, 8 * k + 1))
               + 32 * BitValue(BitAt(tape, 8 * k + 2)) + 16 * BitValue(BitAt(tape, 8 * k + 3))
               + 8 * BitValue(BitAt(tape, 8 * k + 4)) + 4 * BitValue(BitAt(tape, 8 * k + 5))
               + 2 * BitValue(BitAt(tape, 8 * k + 6)) + BitValue(BitAt(tape, 8 * k + 7))
  {
    hide BitAt, MsbValue;
    EightMsb(Octet(tape, k));
  }

  lemma EightMsb(o: seq<bool>)
    requires |o| == 8
    ensures MsbValue(o) == 128 * BitValue(o[0]) + 64 * BitValue(o[1]) + 32 * BitValue(o[2]) + 16 * BitValue(o[3])
                           + 8 * BitValue(o[4]) + 4 * BitValue(o[5]) + 2 * BitValue(o[6]) + BitValue(o[7])
  {
    hide MsbValue, BitValue;
    assert o[..0] == [] && o[..8] == o;
    NoBits();
    FourMore(o, 0);
    FourMore(o, 4);
  }

  lemma NoBits()
    ensures MsbValue([]) == 0
  {
  }

  /** Four more bits on a number. */
  lemma FourMore(o: seq<bool>, n: nat)
    requires n + 4 <= |o|
    ensures MsbValue(o[..n + 4]) == 16 * MsbValue(o[..n]) + 8 * BitValue(o[n]) + 4 * BitValue(o[n + 1])
                                    + 2 * BitValue(o[n + 2]) + BitValue(o[n + 3])
  {
    hide MsbValue, BitValue;
    TwoMore(o, n);
    TwoMore(o, n + 2);
  }

  lemma TwoMore(o: seq<bool>, n: nat)
    requires n + 2 <= |o|
    ensures MsbValue(o[..n + 2]) == 4 * MsbValue(o[..n]) + 2 * BitValue(o[n]) + BitValue(o[n + 1])
  {
    hide BitValue;
    assert o[..n + 2][..n + 1] == o[..n + 1] && o[..n + 1][..n] == o[..n];
    assert MsbValue(o[..n + 1]) == 2 * MsbValue(o[..n]) + BitValue(o[n]);
    assert MsbValue(o[..n + 2]) == 2 * MsbValue(o[..n + 1]) + BitValue(o[n + 1]);
  }
}
