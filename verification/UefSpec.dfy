/**
 What a UEF tape image means: the sequence of bits obtained by laying out its chunks one after
 the other, and the bytes a core reads when these bits are packed most significant bit first.
 */
module UefSpec {
  import opened Bits
  import opened Sequences

  const HEADER_LENGTH: nat := 12
  const CHUNK_HEADER: nat := 6
  const INFO_ID: nat := 0x0000
  const TAPE_ID: nat := 0x0100
  const HIGH_TONE_ID: nat := 0x0110
  const HIGH_DUMMY_ID: nat := 0x0111
  const GAP_ID: nat := 0x0112
  const FREQ_CHANGE_ID: nat := 0x0113
  const FLOAT_GAP_ID: nat := 0x0116
  const END_ID: nat := 0xffff
  const DUMMY: byte := 0x41

  predicate Carries(id: nat) {
    id == TAPE_ID || id == GAP_ID || id == HIGH_TONE_ID || id == HIGH_DUMMY_ID
  }

  /** The bytes of duration a chunk of this kind starts with. */
  function Durations(id: nat): (n: nat)
    ensures n <= 4
  {
    if id == GAP_ID || id == HIGH_TONE_ID then 2 else if id == HIGH_DUMMY_ID then 4 else 0
  }

  /** No further chunk can be read at this offset. */
  predicate Ends(file: seq<byte>, off: nat) {
    || off + CHUNK_HEADER > |file|
    || Le16(file, off) == END_ID
    || off + CHUNK_HEADER + Durations(Le16(file, off)) > |file|
  }

  function Id(file: seq<byte>, off: nat): (id: nat)
    requires off + CHUNK_HEADER <= |file|
    ensures id < 0x1_0000
  {
    Le16(file, off)
  }

  function Length(file: seq<byte>, off: nat): (n: nat)
    requires off + CHUNK_HEADER <= |file|
    ensures n < 0x1_0000_0000
  {
    Le32(file, off + 2)
  }

  function NextChunk(file: seq<byte>, off: nat): nat
    requires off + CHUNK_HEADER <= |file|
  {
    off + CHUNK_HEADER + Length(file, off)
  }

  /** Every chunk from this offset on lies within the file. */
  predicate WellFormed(file: seq<byte>, off: nat)
    decreases |file| - off
  {
    Ends(file, off) || (NextChunk(file, off) <= |file| && WellFormed(file, NextChunk(file, off)))
  }

  // ---- bits of a chunk -----------------------------------------------------------------

  /** A byte on tape: a start bit of 0, the bits from the lowest up, a stop bit of 1. */
  function Frame(b: byte): (bs: seq<bool>)
    ensures |bs| == 10
  {
    [false] + LowBits(b, 8) + [true]
  }

  function Framed(data: seq<byte>): (bs: seq<bool>)
    ensures |bs| == 10 * |data|
  {
    if data == [] then [] else Frame(data[0]) + Framed(data[1..])
  }

  /** The bits of the chunk at an offset, with durations turned into bit counts by rate. */
  function ChunkBits(file: seq<byte>, off: nat, rate: nat -> nat): seq<bool>
    requires !Ends(file, off) && NextChunk(file, off) <= |file|
  {
    var id, body := Id(file, off), off + CHUNK_HEADER;
    if id == TAPE_ID then Framed(file[body..body + Length(file, off)])
    else if id == GAP_ID then Repeat(false, rate(Le16(file, body)))
    else if id == HIGH_TONE_ID then Repeat(true, rate(Le16(file, body)))
    else if id == HIGH_DUMMY_ID then
      Repeat(true, rate(Le16(file, body))) + Framed([DUMMY, DUMMY]) + Repeat(true, rate(Le16(file, body + 2)))
    else []
  }

  /** All bits of the tape from a chunk on. */
  function Flatten(file: seq<byte>, off: nat, rate: nat -> nat): seq<bool>
    requires WellFormed(file, off)
    decreases |file| - off
  {
    if Ends(file, off) then []
    else ChunkBits(file, off, rate) + Flatten(file, NextChunk(file, off), rate)
  }

  // ---- bits at a position ----------------------------------------------------------------

  lemma {:induction false} LowBitsAt(v: nat, n: nat, k: nat)
    requires k < n
    ensures LowBits(v, n)[k] <==> (v / Pow2(k)) % 2 == 1
  {
    if k > 0 {
      LowBitsAt(v / 2, n - 1, k - 1);
      DivDiv(v, 2, Pow2(k - 1));
    }
  }

  /** One bit of a framed byte. */
  function FrameBit(b: byte, k: nat): bool
    requires k < 10
  {
    if k == 0 then false else if k == 9 then true else (b / Pow2(k - 1)) % 2 == 1
  }

  lemma FrameAt(b: byte, k: nat)
    requires k < 10
    ensures Frame(b)[k] == FrameBit(b, k)
  {
    if 0 < k < 9 {
      LowBitsAt(b, 8, k - 1);
    }
  }

  lemma {:induction false} FramedAt(data: seq<byte>, i: nat)
    requires i < 10 * |data|
    ensures Framed(data)[i] == FrameBit(data[i / 10], i % 10)
  {
    if i < 10 {
      FrameAt(data[0], i);
    } else {
      FramedAt(data[1..], i - 10);
      assert (i - 10) / 10 == i / 10 - 1 && (i - 10) % 10 == i % 10;
    }
  }

  // ---- packing -----------------------------------------------------------------------------

  /** A bit of the tape, or 0 past its end. */
  function BitAt(tape: seq<bool>, i: nat): bool {
    i < |tape| && tape[i]
  }

  /** The eight tape bits that byte k is made of. */
  function Octet(tape: seq<bool>, k: nat): (bs: seq<bool>)
    ensures |bs| == 8
  {
    seq(8, i requires 0 <= i < 8 => BitAt(tape, 8 * k + i))
  }

  function PackedByte(tape: seq<bool>, k: nat): byte {
    assert Pow2(8) == 256;
    MsbValue(Octet(tape, k))
  }

  function Packed(tape: seq<bool>, lo: nat, hi: nat): (bytes: seq<byte>)
    requires lo <= hi
    ensures |bytes| == hi - lo
    ensures forall i | 0 <= i < hi - lo :: bytes[i] == PackedByte(tape, lo + i)
  {
    seq<byte>(hi - lo, i requires 0 <= i < hi - lo => PackedByte(tape, lo + i))
  }

  /** Bytes written out bit by bit, the most significant bit first. */
  function Unpacked(bytes: seq<byte>): (bs: seq<bool>)
    ensures |bs| == 8 * |bytes|
  {
    if bytes == [] then [] else Unpacked(bytes[..|bytes| - 1]) + MsbBits(bytes[|bytes| - 1], 8)
  }

  lemma {:induction false} UnpackedAt(tape: seq<bool>, n: nat, i: nat)
    requires i < 8 * n
    ensures Unpacked(Packed(tape, 0, n))[i] == BitAt(tape, i)
  {
    assert Packed(tape, 0, n)[..n - 1] == Packed(tape, 0, n - 1);
    if i < 8 * (n - 1) {
      UnpackedAt(tape, n - 1, i);
    } else {
      MsbBitsOfValue(Octet(tape, n - 1));
    }
  }

  /** The packed bytes hold the whole tape, followed by zeros up to the next whole byte. */
  lemma PackedHoldsTape(tape: seq<bool>, n: nat)
    requires n == (|tape| + 7) / 8
    ensures Unpacked(Packed(tape, 0, n)) == tape + Repeat(false, 8 * n - |tape|)
  {
    var bs := Unpacked(Packed(tape, 0, n));
    forall i | 0 <= i < 8 * n
      ensures bs[i] == (tape + Repeat(false, 8 * n - |tape|))[i]
    {
      UnpackedAt(tape, n, i);
    }
  }
}
