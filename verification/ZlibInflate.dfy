/**
 zlib_inflate: decompression between a read callback, a 32 KB ring and a write callback.
 */
module ZlibInflate {
  import opened Bits
  import opened InflateSpec
  import opened Tinfl
  import opened Sequences
  import Adler32

  /** A count kept in a size_t of 32 bits. */
  function Counted(n: nat): (r: nat)
    ensures n < 0x1_0000_0000 ==> r == n
  {
    n % 0x1_0000_0000
  }

  lemma CountMore(a: nat, b: nat)
    ensures Counted(Counted(a) + b) == Counted(a + b)
  {
    Adler32.ModSum(a, b, 0x1_0000_0000);
  }

  /** The compressed file behind the read callback. */
  class Source {
    const data: seq<byte>
    var pos: nat

    ghost predicate Valid()
      reads this
    {
      pos <= |data|
    }

    constructor (data: seq<byte>)
      ensures this.data == data && pos == 0 && Valid()
    {
      this.data := data;
      pos := 0;
    }

    /** Delivers some bytes, at least one unless the file is exhausted. */
    method Read(n: nat) returns (bytes: seq<byte>)
      requires Valid() && n > 0
      modifies this
      ensures Valid() && pos == old(pos) + |bytes| && |bytes| <= n
      ensures bytes == data[old(pos)..pos]
      ensures old(pos) < |data| ==> bytes != []
    {
      var most := Min(n, |data| - pos);
      var k: nat :| k <= most && (most > 0 ==> k > 0);
      bytes := data[pos..pos + k];
      pos := pos + k;
    }
  }

  /** The write callback; it gets a piece of the ring at a time and may refuse it. */
  class Sink {
    var written: seq<byte>
    var refused: bool

    constructor ()
      ensures written == [] && !refused
    {
      written, refused := [], false;
    }

    method Write(bytes: seq<byte>) returns (ok: bool)
      requires 0 < |bytes| <= 32768
      modifies this
      ensures ok ==> written == old(written) + bytes && refused == old(refused)
      ensures !ok ==> written == old(written) && refused
    {
      ok := *;
      if ok {
        written := written + bytes;
      } else {
        refused := true;
      }
    }
  }

  /** The local variables of zlib_inflate. */
  class Loop {
    const source: Source
    const sink: Sink
    const decomp: Decompressor
    const readSize: nat
    var readBuffer: seq<byte>       // the read_buffer_avail valid bytes of read_buffer
    var srcOffset: nat
    var dstOffset: nat
    var total: nat

    /** Nothing read is lost or read twice, and everything decoded has been handed on. */
    ghost predicate Valid()
      reads this, source, sink, decomp, decomp.out
    {
      && InputOk() && decomp.Between() && decomp.out.Length == RING
      && dstOffset < RING && dstOffset == |decomp.hist| % RING
      && total == Counted(|sink.written|) && sink.written == decomp.hist
    }

    constructor (source: Source, sink: Sink, readSize: nat, zlib: bool, computeAdler: bool)
      requires source.pos == 0 && sink.written == [] && readSize > 0
      requires Inflate(zlib, source.data) != Undefined
      ensures Valid() && fresh(decomp) && fresh(decomp.out)
      ensures this.source == source && this.sink == sink && decomp.zlib == zlib && source.data == decomp.stream
    {
      hide Inflate, Decompressor.Between;
      var ring := new byte[RING](_ => 0);
      this.source, this.sink, this.readSize := source, sink, readSize;
      decomp := new Decompressor(zlib, computeAdler, ring, source.data);
      readBuffer, srcOffset, dstOffset, total := [], 0, 0, 0;
    }

    /** How the pure decoder ends on the whole file. */
    ghost function Goal(): Outcome {
      Inflate(decomp.zlib, source.data)
    }

    ghost function FinalLength(): nat {
      if Goal().Undefined? then 0 else |Goal().out|
    }

    lemma Facts()
      requires Valid()
      ensures source.Valid() && Produced(sink.written) && total == Counted(|sink.written|)
    {
      hide Inflate;
      decomp.HistoryIsPrefix();
    }

    /** hist is the beginning of what the pure decoder produces. */
    ghost predicate Produced(hist: seq<byte>) {
      Goal() != Undefined && hist <= Goal().out
    }

    lemma PrefixProduced(hist: seq<byte>, earlier: seq<byte>)
      requires Produced(hist) && earlier <= hist
      ensures Produced(earlier)
    {
      hide Inflate;
    }

    lemma ProducedLength(hist: seq<byte>)
      requires Produced(hist)
      ensures |hist| <= FinalLength()
    {
      hide Inflate;
    }

    /** What is buffered is what the decoder still has to see of the bytes already read. */
    ghost predicate InputOk()
      reads `readBuffer, `srcOffset, source, decomp
    {
      && source.Valid() && decomp.stream == source.data && readSize > 0 && srcOffset <= |readBuffer|
      && decomp.Position() + |readBuffer| - srcOffset == source.pos && decomp.Position() <= source.pos
      && readBuffer[srcOffset..] == source.data[decomp.Position()..source.pos]
    }

    method CallDecoder() returns (status: Status, produced: nat)
      requires InputOk() && decomp.Between() && dstOffset < RING && dstOffset == |decomp.hist| % RING
      requires decomp.out.Length == RING
      modifies this`srcOffset, decomp, decomp.out
      ensures InputOk() && source.Valid() && decomp.Between() && dstOffset + produced <= RING
      ensures decomp.hist == old(decomp.hist) + decomp.out[dstOffset..dstOffset + produced]
      ensures Produced(decomp.hist)
      ensures status == NeedsMoreInput ==>
        srcOffset == |readBuffer| && (source.pos == |source.data| ==> Goal() == Starved(decomp.hist))
      ensures status == HasMoreOutput ==> produced > 0
      ensures status == StatusDone ==> Goal() == Outcome.Done(decomp.hist)
      ensures status == AdlerMismatch ==> Goal() == Mismatch(decomp.hist)
      ensures status == StatusFailed ==> Goal() == Outcome.Failed(decomp.hist)
      ensures status != Running
    {
      hide Inflate;
      var consumed;
      ghost var rest := source.data[decomp.Position()..source.pos];
      status, consumed, produced := decomp.Decompress(readBuffer[srcOffset..], dstOffset);
      srcOffset := srcOffset + consumed;
      assert rest[consumed..] == source.data[decomp.Position()..source.pos];
    }

    method Refill()
      requires InputOk() && srcOffset == |readBuffer|
      modifies `readBuffer, `srcOffset, source
      ensures InputOk() && source.Valid() && source.pos >= old(source.pos)
      ensures old(source.pos) < |source.data| ==> source.pos > old(source.pos)
    {
      readBuffer := source.Read(readSize);
      srcOffset := 0;
    }

    /**
     One round of while (1).  The loop is left only when the pure decoder ends in success,
     mismatch or failure, or when a write is refused; a truncated stream never leaves it.
     */
    method Iterate() returns (again: bool)
      requires Valid() && !sink.refused
      modifies this, source, sink, decomp, decomp.out
      ensures again ==> Valid() && !sink.refused
      ensures !again && !sink.refused ==>
        Goal() in {Outcome.Done(sink.written), Mismatch(sink.written), Outcome.Failed(sink.written)}
      ensures total == Counted(|sink.written|) && old(sink.written) <= sink.written && source.pos >= old(source.pos)
      ensures source.Valid() && Produced(sink.written)
      ensures again ==>
        |sink.written| > |old(sink.written)| || source.pos > old(source.pos) || Goal() == Starved(sink.written)
    {
      hide Inflate, InputOk, Produced, Decompressor.Between, Counted;
      var status, produced := CallDecoder();
      if status == NeedsMoreInput {
        Refill();
      }
      ghost var block := decomp.out[dstOffset..dstOffset + produced];
      if produced > 0 {
        var ok := sink.Write(decomp.out[dstOffset..dstOffset + produced]);
        if !ok {
          PrefixProduced(decomp.hist, sink.written);
          return false;
        }
      }
      assert sink.written == old(sink.written) + block;
      CountMore(|old(sink.written)|, produced);
      total := Counted(total + produced);
      if status in {StatusDone, AdlerMismatch, StatusFailed} {
        return false;
      }
      Adler32.ModSum(|old(sink.written)|, produced, RING);
      dstOffset := (dstOffset + produced) % RING;
      return true;
    }

    /** For a file that is cut short, no number of rounds leaves the loop unless a write is refused. */
    method RunStarved(rounds: nat) returns (again: bool)
      requires Valid() && !sink.refused && Goal().Starved?
      modifies this, source, sink, decomp, decomp.out
      ensures again || sink.refused
    {
      hide Inflate, Produced, Valid;
      again := true;
      var i := 0;
      while again && i < rounds
        invariant again ==> Valid() && !sink.refused
        invariant again || sink.refused
      {
        again := Iterate();
        i := i + 1;
      }
    }

    /**
     The whole loop, for a file that is not cut short: it ends, and unless a write was
     refused the output is that of the pure decoder.
     */
    method Run() returns (written: nat)
      requires Valid() && !sink.refused && !Goal().Starved?
      modifies this, source, sink, decomp, decomp.out
      ensures written == Counted(|sink.written|) && Produced(sink.written)
      ensures !sink.refused ==>
        Goal() in {Outcome.Done(sink.written), Mismatch(sink.written), Outcome.Failed(sink.written)}
    {
      hide Inflate, Produced, Valid;
      Facts();
      var again := true;
      while again
        invariant again ==> Valid() && !sink.refused
        invariant source.Valid() && Produced(sink.written) && total == Counted(|sink.written|)
        invariant !again && !sink.refused ==>
          Goal() in {Outcome.Done(sink.written), Mismatch(sink.written), Outcome.Failed(sink.written)}
        decreases again, FinalLength() - |sink.written|, |source.data| - source.pos
      {
        again := Iterate();
        ProducedLength(sink.written);
      }
      written := total;
    }
  }

  /** Decompresses a file into a sink: the callbacks, the ring and the decoder put together. */
  method Decompress(source: Source, sink: Sink, readSize: nat, zlib: bool) returns (written: nat)
    requires source.pos == 0 && sink.written == [] && !sink.refused && readSize > 0
    requires !Inflate(zlib, source.data).Undefined? && !Inflate(zlib, source.data).Starved?
    modifies source, sink
    ensures written == Counted(|sink.written|) && sink.written <= Inflate(zlib, source.data).out
    ensures !sink.refused ==> sink.written == Inflate(zlib, source.data).out
  {
    hide Inflate;
    var loop := new Loop(source, sink, readSize, zlib, false);
    written := loop.Run();
  }
}
