/**
 Reading a UEF tape image bit by bit: chunks are found by walking the file, but one chunk
 found earlier is remembered, and the walk starts over, goes on from it or is not needed at
 all. Bytes for the core are packed from single bits into a buffer of 512.
 */
module UefTape {
  import opened Bits
  import opened UefSpec

  const WORD: nat := 0x1_0000_0000
  const MAX_SIZE: nat := 0x1fff_ffff
  const ALL_ONES: nat := 0xffff_ffff
  const BUFFER_SIZE: nat := 512

  /** The ten bytes every UEF file starts with: "UEF File!" and a zero. */
  const TAG: seq<byte> := [0x55, 0x45, 0x46, 0x20, 0x46, 0x69, 0x6c, 0x65, 0x21, 0x00]

  datatype Format = Unsupported | Uef

  datatype Status = Ok | Truncated | Ignored

  /** The tape goes on at this offset after a number of bits. */
  ghost predicate Suffix(file: seq<byte>, rate: nat -> nat, off: nat, bits: nat)
    requires WellFormed(file, HEADER_LENGTH)
  {
    && WellFormed(file, off)
    && bits <= |Flatten(file, HEADER_LENGTH, rate)|
    && Flatten(file, HEADER_LENGTH, rate)[bits..] == Flatten(file, off, rate)
  }

  lemma SuffixStart(file: seq<byte>, rate: nat -> nat)
    requires WellFormed(file, HEADER_LENGTH)
    ensures Suffix(file, rate, HEADER_LENGTH, 0)
  {
  }

  /** Walking over a chunk. */
  lemma SuffixStep(file: seq<byte>, rate: nat -> nat, off: nat, bits: nat)
    requires WellFormed(file, HEADER_LENGTH) && Suffix(file, rate, off, bits) && !Ends(file, off)
    ensures NextChunk(file, off) <= |file|
    ensures Suffix(file, rate, NextChunk(file, off), bits + |ChunkBits(file, off, rate)|)
    ensures forall k | 0 <= k < |ChunkBits(file, off, rate)| ::
              Flatten(file, HEADER_LENGTH, rate)[bits + k] == ChunkBits(file, off, rate)[k]
  {
    var all, here := Flatten(file, HEADER_LENGTH, rate), ChunkBits(file, off, rate);
    assert all[bits..] == here + Flatten(file, NextChunk(file, off), rate);
    assert |all| - bits == |here| + |Flatten(file, NextChunk(file, off), rate)|;
    assert all[bits + |here|..] == all[bits..][|here|..];
    forall k | 0 <= k < |here|
      ensures all[bits + k] == here[k]
    {
      assert all[bits + k] == all[bits..][k];
    }
  }

  lemma SuffixEnd(file: seq<byte>, rate: nat -> nat, off: nat, bits: nat)
    requires WellFormed(file, HEADER_LENGTH) && Suffix(file, rate, off, bits) && Ends(file, off)
    ensures bits == |Flatten(file, HEADER_LENGTH, rate)|
  {
  }

  /** The number of bits of a chunk, from its length and the durations it starts with. */
  lemma ChunkSize(file: seq<byte>, off: nat, rate: nat -> nat)
    requires !Ends(file, off) && NextChunk(file, off) <= |file|
    ensures var id, body := Id(file, off), off + CHUNK_HEADER;
            |ChunkBits(file, off, rate)|
            == (if id == TAPE_ID then Length(file, off) * 10
                else if id == GAP_ID || id == HIGH_TONE_ID then rate(Le16(file, body))
                else if id == HIGH_DUMMY_ID then rate(Le16(file, body)) + 20 + rate(Le16(file, body + 2))
                else 0)
  {
  }

  /** A bit of a chunk, as computed from its position. */
  function BitOfChunk(file: seq<byte>, off: nat, rate: nat -> nat, k: nat): bool
    requires !Ends(file, off) && NextChunk(file, off) <= |file| && k < |ChunkBits(file, off, rate)|
  {
    var id, body := Id(file, off), off + CHUNK_HEADER;
    if id == GAP_ID then false
    else if id == HIGH_TONE_ID then true
    else if id == TAPE_ID then FrameBit(file[body + k / 10], k % 10)
    else
      var pre := rate(Le16(file, body));
      if k < pre || k >= pre + 20 then true else FrameBit(DUMMY, (k - pre) % 10)
  }

  lemma ChunkBitAt(file: seq<byte>, off: nat, rate: nat -> nat, k: nat)
    requires !Ends(file, off) && NextChunk(file, off) <= |file| && k < |ChunkBits(file, off, rate)|
    ensures ChunkBits(file, off, rate)[k] == BitOfChunk(file, off, rate, k)
  {
    hide Framed, FrameBit;
    var id, body := Id(file, off), off + CHUNK_HEADER;
    if id == TAPE_ID {
      FramedAt(file[body..body + Length(file, off)], k);
    } else if id == HIGH_DUMMY_ID {
      var pre := rate(Le16(file, body));
      if pre <= k < pre + 20 {
        FramedAt([DUMMY, DUMMY], k - pre);
      }
    }
  }

  class Tape {
    const file: seq<byte>
    const rate: nat -> nat
    var pos: nat
    // the remembered chunk
    var id: nat
    var length: nat
    var fileOffset: nat
    var bitStart: nat
    var bitEnd: nat
    var preCarrier: nat
    // the drive descriptor
    var format: Format
    var fileSize: nat
    // bytes handed to the core
    var sent: seq<byte>

    /** A well-formed image of a file the seek arithmetic can address, below 2^32 - 1 bits. */
    ghost predicate Mounted() {
      HEADER_LENGTH <= |file| < 0x8000_0000 && WellFormed(file, HEADER_LENGTH) && |Bits()| < ALL_ONES
    }

    ghost function Bits(): seq<bool>
      requires WellFormed(file, HEADER_LENGTH)
    {
      Flatten(file, HEADER_LENGTH, rate)
    }

    /** The remembered chunk is one of the tape, with the bits it holds. */
    ghost predicate Remembers()
      requires Mounted()
      reads `id, `length, `fileOffset, `bitStart, `bitEnd, `preCarrier
    {
      && fileOffset >= CHUNK_HEADER
      && var off := fileOffset - CHUNK_HEADER;
      && !Ends(file, off) && Suffix(file, rate, off, bitStart)
      && id == Id(file, off) && Carries(id) && length == Length(file, off)
      && bitEnd == bitStart + |ChunkBits(file, off, rate)|
      && (id == HIGH_DUMMY_ID ==> preCarrier == rate(Le16(file, fileOffset)))
    }

    /** The remembered chunk is either marked as void or right. */
    ghost predicate CacheOk()
      requires Mounted()
      reads `id, `length, `fileOffset, `bitStart, `bitEnd, `preCarrier
    {
      bitEnd != 0 ==> Remembers()
    }

    constructor (file: seq<byte>, rate: nat -> nat)
      ensures this.file == file && this.rate == rate
      ensures Mounted() ==> CacheOk()
      ensures format == Unsupported && sent == []
    {
      this.file, this.rate := file, rate;
      pos, id, length, fileOffset, bitStart, bitEnd, preCarrier := 0, 0, 0, 0, 0, 0, 0;
      format, fileSize, sent := Unsupported, 0, [];
    }

    method Seek(to: nat)
      requires to <= |file|
      modifies `pos
      ensures pos == to
    {
      pos := to;
    }

    /** A 16-bit value at the file position; short when the file ends before it. */
    method Read16() returns (ok: bool, v: nat)
      requires pos <= |file|
      modifies `pos
      ensures ok == (old(pos) + 2 <= |file|)
      ensures ok ==> pos == old(pos) + 2 && v == Le16(file, old(pos))
      ensures pos <= |file|
    {
      if pos + 2 > |file| {
        pos := |file|;
        return false, 0;
      }
      v := Le16(file, pos);
      pos := pos + 2;
      return true, v;
    }

    /** The chunk header at the file position, straight into the remembered chunk. */
    method ReadChunkHeader() returns (r: nat)
      requires pos <= |file|
      modifies `pos, `id, `length
      ensures old(pos) + CHUNK_HEADER > |file| ==> r == END_ID
      ensures old(pos) + CHUNK_HEADER <= |file| ==>
                && pos == old(pos) + CHUNK_HEADER
                && r == id == Id(file, old(pos)) && length == Length(file, old(pos))
      ensures pos <= |file|
    {
      id, length := END_ID, 0;
      if pos + CHUNK_HEADER > |file| {
        pos := |file|;
        id := *;
        length := *;
        return END_ID;
      }
      id, length := Id(file, pos), Length(file, pos);
      pos := pos + CHUNK_HEADER;
      return id;
    }

    /** The bit count of the chunk whose header was just read, as far as the file gives it. */
    method Measure(ghost off: nat) returns (ok: bool, bits: nat)
      requires Mounted() && off + CHUNK_HEADER <= |file| && pos == off + CHUNK_HEADER
      requires id == Id(file, off) && Carries(id) && length == Length(file, off)
      requires !Ends(file, off) ==> NextChunk(file, off) <= |file| && |ChunkBits(file, off, rate)| < WORD
      modifies `pos, `preCarrier
      ensures ok == !Ends(file, off)
      ensures ok ==> pos == old(pos) && bits == |ChunkBits(file, off, rate)|
      ensures ok && id == HIGH_DUMMY_ID ==> preCarrier == rate(Le16(file, off + CHUNK_HEADER))
    {
      hide Flatten, ChunkBits, WellFormed, Bits, Le16, Le32;
      if !Ends(file, off) {
        ChunkSize(file, off, rate);
      }
      if id == TAPE_ID {
        return true, (length * 10) % WORD;
      }
      var readable, ms := Read16();
      if !readable {
        return false, 0;
      }
      if id == HIGH_DUMMY_ID {
        preCarrier := rate(ms);
        readable, ms := Read16();
        if !readable {
          return false, 0;
        }
        Seek(pos - 4);
        return true, (preCarrier + 20 + rate(ms)) % WORD;
      }
      Seek(pos - 2);
      return true, rate(ms) % WORD;
    }

    /** What the length scan reads of chunks without bits: texts piecewise, numbers at once. */
    method Peek() returns (ok: bool)
      requires pos <= |file|
      modifies `pos
      ensures pos <= |file|
      ensures !ok ==> old(pos) + 4 > |file|
    {
      ok := true;
      if id == INFO_ID {
        var left := length;
        while left > 0
          invariant pos <= |file|
        {
          var n := if left > 63 then 63 else left;
          if pos + n > |file| {
            pos := |file|;
            break;
          }
          pos := pos + n;
          left := left - n;
        }
      } else if id == FREQ_CHANGE_ID || id == FLOAT_GAP_ID {
        if pos + 4 > |file| {
          pos := |file|;
          return false;
        }
        pos := pos + 4;
      }
    }

    /** What the header at a chunk boundary says about the tape. */
    lemma AtChunk(off: nat, start: nat, r: nat)
      requires Mounted() && Suffix(file, rate, off, start)
      requires r == if off + CHUNK_HEADER > |file| then END_ID else Id(file, off)
      ensures r == END_ID ==> Ends(file, off)
      ensures Ends(file, off) ==> start == |Bits()|
      ensures !Ends(file, off) ==>
                && NextChunk(file, off) <= |file|
                && start + |ChunkBits(file, off, rate)| <= |Bits()|
                && Suffix(file, rate, NextChunk(file, off), start + |ChunkBits(file, off, rate)|)
      ensures r != END_ID && !Carries(r) ==> !Ends(file, off) && |ChunkBits(file, off, rate)| == 0
    {
      hide Flatten, ChunkBits, WellFormed;
      if Ends(file, off) {
        SuffixEnd(file, rate, off, start);
      } else {
        SuffixStep(file, rate, off, start);
        ChunkSize(file, off, rate);
      }
    }

    lemma AtEnd(off: nat, start: nat)
      requires Mounted() && Suffix(file, rate, off, start) && off + CHUNK_HEADER > |file|
      ensures start == |Bits()|
    {
      hide Flatten, ChunkBits, WellFormed;
      SuffixEnd(file, rate, off, start);
    }

    /** Forget the remembered chunk and go to where the search for a later position begins. */
    method Rewind(bitPos: nat) returns (chunkStart: nat)
      requires Mounted() && CacheOk() && !(bitStart <= bitPos < bitEnd)
      modifies `pos, `bitEnd
      ensures bitEnd == 0 && pos <= |file| && chunkStart <= bitPos
      ensures Suffix(file, rate, pos, chunkStart)
    {
      hide Flatten, ChunkBits, WellFormed;
      if bitEnd != 0 && bitPos >= bitEnd {
        SuffixStep(file, rate, fileOffset - CHUNK_HEADER, bitStart);
        Seek(fileOffset + length);
        chunkStart := bitEnd;
      } else {
        SuffixStart(file, rate);
        Seek(HEADER_LENGTH);
        chunkStart := 0;
      }
      bitEnd := 0;
    }

    /** Walk on from a chunk boundary to the chunk that holds a position, or to the end. */
    method Scan(target: nat, start: nat) returns (rel: nat)
      requires Mounted() && bitEnd == 0 && pos <= |file| && start <= target
      requires Suffix(file, rate, pos, start)
      modifies `pos, `id, `length, `fileOffset, `bitStart, `bitEnd, `preCarrier
      ensures CacheOk()
      ensures bitEnd != 0 <==> target < |Bits()|
      ensures bitEnd != 0 ==> bitStart <= target < bitEnd && rel == target - bitStart
      ensures bitEnd == 0 ==> rel == target - |Bits()|
    {
      hide Flatten, ChunkBits, WellFormed, Suffix, Bits, Ends;
      var chunkStart: nat, bitPos: nat := start, target - start;
      while pos < |file|
        invariant pos <= |file| && bitEnd == 0 && chunkStart + bitPos == target
        invariant Suffix(file, rate, pos, chunkStart)
        decreases |file| - pos
      {
        ghost var off := pos;
        var r := ReadChunkHeader();
        AtChunk(off, chunkStart, r);
        if r == END_ID {
          rel := bitPos;
          return;
        }
        fileOffset := pos;
        if Carries(r) {
          var ok, bits := Measure(off);
          if !ok {
            rel := bitPos;
            return;
          }
          if bitPos < bits {
            bitStart, bitEnd := chunkStart, chunkStart + bits;
            rel := bitPos;
            return;
          }
          bitPos := bitPos - bits;
          chunkStart := chunkStart + bits;
        } else if target == ALL_ONES {
          var ok := Peek();
          if !ok {
            AtEnd(NextChunk(file, off), chunkStart);
            rel := bitPos;
            return;
          }
          Seek(fileOffset);
        }
        Seek(pos + length);
      }
      AtEnd(pos, chunkStart);
      rel := bitPos;
    }

    /** GetChunkAtPosFile: the chunk that holds a position of the tape, whatever chunk is remembered. */
    method GetChunk(target: nat) returns (found: bool, rel: nat)
      requires Mounted() && CacheOk()
      modifies `pos, `id, `length, `fileOffset, `bitStart, `bitEnd, `preCarrier
      ensures CacheOk()
      ensures found <==> target < |Bits()|
      ensures found ==> bitEnd != 0 && bitStart <= target < bitEnd && rel == target - bitStart
      ensures !found ==> rel == target - |Bits()|
    {
      hide Flatten, ChunkBits, WellFormed, Bits;
      if bitStart <= target && target < bitEnd {
        AtChunk(fileOffset - CHUNK_HEADER, bitStart, id);
        return true, target - bitStart;
      }
      var chunkStart := Rewind(target);
      rel := Scan(target, chunkStart);
      found := bitEnd != 0;
    }

    /** GetBitAtPos: the bit at a position of the tape, or 0 past its end. */
    method GetBit(target: nat) returns (b: bool)
      requires Mounted() && CacheOk()
      modifies `pos, `id, `length, `fileOffset, `bitStart, `bitEnd, `preCarrier
      ensures CacheOk()
      ensures b == BitAt(Bits(), target)
    {
      hide Flatten, ChunkBits, WellFormed, Suffix;
      var found, k := GetChunk(target);
      if !found {
        return false;
      }
      ghost var off := fileOffset - CHUNK_HEADER;
      AtChunk(off, bitStart, id);
      SuffixStep(file, rate, off, bitStart);
      ChunkBitAt(file, off, rate, k);
      ChunkSize(file, off, rate);
      if id == GAP_ID {
        return false;
      } else if id == HIGH_TONE_ID {
        return true;
      }
      if id == TAPE_ID {
        var byteOffset := k / 10;
        var bitOffset := k - byteOffset * 10;
        if bitOffset == 0 {
          return false;
        }
        if bitOffset == 9 {
          return true;
        }
        Seek(fileOffset + byteOffset);
        var v := file[pos];
        return (v / Pow2(bitOffset - 1)) % 2 == 1;
      }
      if k < preCarrier || k >= preCarrier + 20 {
        return true;
      }
      k := (k - preCarrier) % 10;
      if k == 0 {
        return false;
      }
      if k == 9 {
        return true;
      }
      return (DUMMY / Pow2(k - 1)) % 2 == 1;
    }

    /** InsertInit for a UEF image: check the header, then measure the tape with one impossible query. */
    method Insert()
      requires |file| >= 12 && file[..10] == [0x55, 0x45, 0x46, 0x20, 0x46, 0x69, 0x6c, 0x65, 0x21, 0x00] ==> Mounted()
      modifies this
      ensures |file| >= 12 && file[..10] == [0x55, 0x45, 0x46, 0x20, 0x46, 0x69, 0x6c, 0x65, 0x21, 0x00] ==>
                format == Uef && CacheOk() && fileSize == ((|Bits()| + 7) % 0x1_0000_0000) / 8 <= 0x1fff_ffff
      ensures !(|file| >= 12 && file[..10] == [0x55, 0x45, 0x46, 0x20, 0x46, 0x69, 0x6c, 0x65, 0x21, 0x00]) ==>
                format == Unsupported && fileSize == |file|
      ensures sent == old(sent)
    {
      hide Flatten, ChunkBits, WellFormed, Bits;
      id, length, fileOffset, bitStart, bitEnd, preCarrier := 0, 0, 0, 0, 0, 0;
      format, fileSize := Unsupported, |file|;
      if |file| < HEADER_LENGTH {
        return;
      }
      if file[..|TAG|] != TAG {
        return;
      }
      format := Uef;
      var found, rest := GetChunk(ALL_ONES);
      var bits := ALL_ONES - rest;
      fileSize := ((bits + 7) % WORD) / 8;
    }

    /** The bit position of a bit in a byte address, in 32-bit arithmetic. */
    function Position(addr: nat, bit: nat): (p: nat)
      ensures addr <= MAX_SIZE && bit < 8 ==> p == addr * 8 + bit
    {
      ((addr * 8) % WORD + bit) % WORD
    }

    /** One byte for the core: eight tape bits, the first one highest. */
    method GetByte(addr: nat) returns (v: byte)
      requires Mounted() && CacheOk() && addr <= 0x1fff_ffff
      modifies `pos, `id, `length, `fileOffset, `bitStart, `bitEnd, `preCarrier
      ensures CacheOk()
      ensures v == PackedByte(Bits(), addr)
    {
      hide Bits, CacheOk, BitAt;
      assert Pow2(8) == 256;
      var octet := Octet(Bits(), addr);
      var val: nat := 0;
      for bit := 0 to 8
        invariant CacheOk()
        invariant val == MsbValue(octet[..bit])
      {
        var b := GetBit(Position(addr, bit));
        assert octet[..bit + 1][..bit] == octet[..bit];
        val := val * 2 + BitValue(b);
      }
      assert octet[..8] == octet;
      return val;
    }

    /** Fill the start of the buffer with packed bytes. */
    method FillBuffer(fbuf: array<byte>, addr: nat, n: nat)
      requires Mounted() && CacheOk() && n <= fbuf.Length && addr + n <= MAX_SIZE + 1
      modifies fbuf, `pos, `id, `length, `fileOffset, `bitStart, `bitEnd, `preCarrier
      ensures CacheOk()
      ensures fbuf[..n] == Packed(Bits(), addr, addr + n)
    {
      hide Bits, CacheOk, PackedByte;
      for p := 0 to n
        invariant CacheOk()
        invariant fbuf[..p] == Packed(Bits(), addr, addr + p)
      {
        var v := GetByte(addr + p);
        fbuf[p] := v;
        assert fbuf[..p + 1] == fbuf[..p] + [v];
      }
    }

    /** One buffer of packed bytes, cut at the end of the tape. */
    method SendPart(fbuf: array<byte>, addr: nat, curSize: nat) returns (actSize: nat)
      requires Mounted() && CacheOk() && curSize <= fbuf.Length && addr <= fileSize <= MAX_SIZE
      modifies fbuf, `pos, `id, `length, `fileOffset, `bitStart, `bitEnd, `preCarrier, `sent
      ensures CacheOk() && actSize == if addr + curSize > fileSize then fileSize - addr else curSize
      ensures sent == old(sent) + Packed(Bits(), addr, addr + actSize)
    {
      hide Bits, CacheOk, Packed;
      actSize := curSize;
      if addr + actSize > fileSize {
        actSize := fileSize - addr;
      }
      FillBuffer(fbuf, addr, actSize);
      sent := sent + fbuf[..actSize];
    }

    /**
     UEF_Process: a write is ignored. A read sends the packed tape from the address on, as much of
     the request as there is; a request beyond the end is answered short and reported as truncated.
     */
    method Process(write: bool, addr0: nat, size0: nat, fbuf: array<byte>) returns (status: Status)
      requires Mounted() && CacheOk() && fbuf.Length == 512 && fileSize <= 0x1fff_ffff
      modifies fbuf, `pos, `id, `length, `fileOffset, `bitStart, `bitEnd, `preCarrier, `sent
      ensures CacheOk()
      ensures status == Ignored <==> write
      ensures write ==> sent == old(sent) && fbuf[..] == old(fbuf[..])
      ensures !write ==>
                var lo := if addr0 > fileSize then fileSize else addr0;
                var hi := if lo + size0 > fileSize then fileSize else lo + size0;
                && sent == old(sent) + Packed(Bits(), lo, hi)
                && status == if lo + size0 <= fileSize then Ok else Truncated
    {
      hide Bits, CacheOk, Packed;
      if write {
        return Ignored;
      }
      status := ProcessRead(if addr0 > fileSize then fileSize else addr0, size0, fbuf);
    }

    /** A read from within the tape, one buffer after the other. */
    method ProcessRead(lo: nat, size0: nat, fbuf: array<byte>) returns (status: Status)
      requires Mounted() && CacheOk() && fbuf.Length == BUFFER_SIZE && lo <= fileSize <= MAX_SIZE
      modifies fbuf, `pos, `id, `length, `fileOffset, `bitStart, `bitEnd, `preCarrier, `sent
      ensures CacheOk() && status == if lo + size0 <= fileSize then Ok else Truncated
      ensures sent == old(sent) + Packed(Bits(), lo, if lo + size0 > fileSize then fileSize else lo + size0)
    {
      hide Bits, CacheOk, Packed;
      PackedNone(Bits(), lo);
      var addr: nat, size: nat := lo, size0;
      while size > 0
        invariant lo <= addr <= fileSize && addr + size == lo + size0
        invariant CacheOk() && sent == old(sent) + Packed(Bits(), lo, addr)
      {
        var curSize := if size > BUFFER_SIZE then BUFFER_SIZE else size;
        var actSize := SendPart(fbuf, addr, curSize);
        PackedMore(old(sent), Bits(), lo, addr, addr + actSize);
        if actSize != curSize {
          return Truncated;
        }
        addr := addr + curSize;
        size := size - curSize;
      }
      return Ok;
    }
  }

  lemma PackedMore(before: seq<byte>, tape: seq<bool>, a: nat, b: nat, c: nat)
    requires a <= b <= c
    ensures before + Packed(tape, a, b) + Packed(tape, b, c) == before + Packed(tape, a, c)
  {
    hide PackedByte;
    assert Packed(tape, a, b) + Packed(tape, b, c) == Packed(tape, a, c);
  }

  lemma PackedNone(tape: seq<bool>, a: nat)
    ensures Packed(tape, a, a) == []
  {
  }

  const LONG_DATA: nat := 0x1999_9999

  /** A tape of one data chunk of 429496729 bytes. */
  function LongTapeFile(data: seq<byte>): seq<byte> {
    TAG + [10, 0] + ([0x00, 0x01] + [0x99, 0x99, 0x99, 0x19]) + data
  }

  /** A tape that is too long for the size: 2^32 - 6 bits, reported as size 0. */
  lemma LongTape(data: seq<byte>, rate: nat -> nat)
    requires |data| == LONG_DATA
    ensures var file := LongTapeFile(data);
            && |file| < 0x8000_0000 && file[..|TAG|] == TAG
            && WellFormed(file, HEADER_LENGTH)
            && |Flatten(file, HEADER_LENGTH, rate)| == WORD - 6
    ensures ((WORD - 6 + 7) % WORD) / 8 == 0
  {
    hide Framed;
    var file := LongTapeFile(data);
    LongHeader(data);
    assert Ends(file, |file|);
    assert |ChunkBits(file, HEADER_LENGTH, rate)| == 10 * LONG_DATA;
    assert Flatten(file, |file|, rate) == [];
  }

  lemma LongHeader(data: seq<byte>)
    requires |data| == LONG_DATA
    ensures var file := LongTapeFile(data);
            && |file| == HEADER_LENGTH + CHUNK_HEADER + LONG_DATA && file[..|TAG|] == TAG
            && Id(file, HEADER_LENGTH) == TAPE_ID && Length(file, HEADER_LENGTH) == LONG_DATA
  {
    var file := LongTapeFile(data);
    var front := TAG + [10, 0] + ([0x00, 0x01] + [0x99, 0x99, 0x99, 0x19]);
    assert front[12] == 0x00 && front[13] == 0x01 && front[14] == front[15] == front[16] == 0x99 && front[17] == 0x19;
    assert file[12] == 0x00 && file[13] == 0x01 && file[14] == file[15] == file[16] == 0x99 && file[17] == 0x19;
    assert front[..10] == TAG;
  }

  /** The size reported for a tape covers it exactly unless the rounding wraps. */
  lemma SizeCovers(bits: nat)
    requires bits < ALL_ONES
    ensures ((bits + 7) % WORD) / 8 == (bits + 7) / 8 <==> bits + 7 < WORD
  {
    if bits + 7 >= WORD {
      assert (bits + 7) % WORD == bits + 7 - WORD;
    }
  }
}