/**
 The zlib wrapper of RFC 1950 in numbers, around a block with the fixed codes: which two header
 bytes are allowed, what the four bytes behind the block are, and what the driver loop hands on.
 */
module ZlibNumbers {
  import Adler32
  import opened Bits
  import opened InflateEncoder
  import opened InflateNumbers
  import opened InflateRoundTrip
  import opened InflateSpec
  import Tinfl
  import ZlibInflate

  /**
   The fields of the header (section 2.2): method and window size in the first byte, check bits,
   dictionary bit and level in the second one. The method is 8, the window at most 7, there is no
   dictionary, and the two bytes are a multiple of 31.
   */
  lemma HeaderFields(method_: nat, window: nat, check: nat, dictionary: nat, level: nat)
    requires method_ < 16 && window < 16 && check < 32 && dictionary < 2 && level < 4
    ensures !BadZlibHeader(method_ + 16 * window, check + 32 * dictionary + 64 * level)
            <==> method_ == 8 && window <= 7 && dictionary == 0
                 && (256 * (method_ + 16 * window) + check + 32 * dictionary + 64 * level) % 31 == 0
  {
  }

  /** A stream whose first two bytes are none of these is refused, and any other one is not refused for them. */
  lemma HeaderDecides(method_: nat, window: nat, check: nat, dictionary: nat, level: nat, rest: seq<byte>)
    requires method_ < 16 && window < 16 && check < 32 && dictionary < 2 && level < 4
    ensures var stream := [method_ + 16 * window, check + 32 * dictionary + 64 * level] + rest;
            Inflate(true, stream)
            == if method_ == 8 && window <= 7 && dictionary == 0
                  && (256 * (method_ + 16 * window) + check + 32 * dictionary + 64 * level) % 31 == 0
               then Blocks(true, StreamBits(rest), []) else Failed([])
  {
    hide Blocks, StreamBits, BadZlibHeader, Byte;
    HeaderFields(method_, window, check, dictionary, level);
    var cmf: byte, flg: byte := method_ + 16 * window, check + 32 * dictionary + 64 * level;
    assert [cmf, flg] + rest == [cmf] + ([flg] + rest);
    ByteInFront(cmf, [flg] + rest);
    ByteInFront(flg, rest);
  }

  /** A zlib stream of one fixed block, all in numbers. */
  function FixedStream(window: nat, level: nat, check: nat, ts: seq<Token>): seq<byte>
    requires window <= 7 && level <= 3 && check < 32
    requires (forall t | t in ts :: Holds(t)) && AllInReach(ts, 0)
  {
    var out := AllMeant([], ts);
    var low, high := (1 + Adler32.Total(out)) % 65521, (|out| + Adler32.Weighted(out)) % 65521;
    [8 + 16 * window, check + 64 * level] + Pack(FixedBlock(ts)) + [high / 256, high % 256, low / 256, low % 256]
  }

  lemma FixedStreamInflates(window: nat, level: nat, check: nat, ts: seq<Token>)
    requires window <= 7 && level <= 3 && check < 32
    requires (256 * (8 + 16 * window) + check + 64 * level) % 31 == 0
    requires (forall t | t in ts :: Holds(t)) && AllInReach(ts, 0)
    ensures Inflate(true, FixedStream(window, level, check, ts)) == Done(AllMeant([], ts))
  {
    hide AllMeant, AllInReach, AllCoded, BlocksInReach, Meaning, EncodeBlocks, FixedBlock, Pack, Holds, BadZlibHeader,
         Inflate, Adler32.Total, Adler32.Weighted, Adler32.Adler, Adler32.SumsOf;
    var bs, out := [FixedCodes(ts)], AllMeant([], ts);
    var cmf: byte, flg: byte := 8 + 16 * window, check + 64 * level;
    BlockInNumbers(ts);
    OneBlockMeans(bs);
    HeaderFields(8, window, check, 0, level);
    ZlibRoundTrip(cmf, flg, bs);
    Adler32.AdlerInNumbers(out);
    SumBytes((|out| + Adler32.Weighted(out)) % 65521, (1 + Adler32.Total(out)) % 65521);
    assert FixedStream(window, level, check, ts) == ZlibStream(cmf, flg, bs);
  }

  lemma SumBytes(high: nat, low: nat)
    requires high < 65521 && low < 65521
    ensures BigEndian(high * 65536 + low) == [high / 256, high % 256, low / 256, low % 256]
  {
    FourParts(high / 256, high % 256, low / 256, low % 256);
  }

  lemma FourParts(a: byte, b: byte, c: byte, d: byte)
    ensures var v := (256 * a + b) * 65536 + (256 * c + d);
            v / 0x100_0000 == a && v / 0x1_0000 % 256 == b && v / 256 % 256 == c && v % 256 == d
  {
    var v: nat, ab: nat, abc: nat := (256 * a + b) * 65536 + (256 * c + d), 256 * a + b, 65536 * a + 256 * b + c;
    DivModUnique(v, 0x100_0000, a, 65536 * b + 256 * c + d);
    DivModUnique(v, 0x1_0000, ab, 256 * c + d);
    DivModUnique(ab, 256, a, b);
    DivModUnique(v, 256, abc, d);
    DivModUnique(abc, 256, ab, c);
  }

  /** The letter "a" as zlib writes it at its usual level. */
  lemma LetterStream()
    ensures Inflate(true, [0x78, 0x9c, 0x4b, 0x04, 0x00, 0x00, 0x62, 0x00, 0x62]) == Done([97])
  {
    hide Inflate, FixedBlock, Pack, Adler32.Total, Adler32.Weighted;
    LetterMeans();
    LetterBlock();
    LetterSums();
    var stream: seq<byte> := [0x78, 0x9c, 0x4b, 0x04, 0x00, 0x00, 0x62, 0x00, 0x62];
    assert FixedStream(7, 2, 28, [Literal(97)]) == [0x78, 0x9c] + [0x4b, 0x04, 0x00] + [0x00, 0x62, 0x00, 0x62] == stream;
    FixedStreamInflates(7, 2, 28, [Literal(97)]);
  }

  lemma LetterSums()
    ensures Adler32.Total([97]) == 97 && Adler32.Weighted([97]) == 97
  {
    Adler32.OneByteMore([], 97);
    assert [] + [97] == [97];
  }

  /**
   One call of the decoder on a raw or wrapped fixed block: what it has produced is a start of what
   the tokens mean, all of it once it is done, and it neither fails nor waits behind the last byte.
   */
  method CallFixed(d: Tinfl.Decompressor, chunk: seq<byte>, outNext: nat,
                   ghost window: nat, ghost level: nat, ghost check: nat, ghost ts: seq<Token>)
    returns (status: Tinfl.Status, consumed: nat, produced: nat)
    requires d.Between() && d.Position() + |chunk| <= |d.stream|
    requires chunk == d.stream[d.Position()..d.Position() + |chunk|] && outNext < 32768 && outNext == |d.hist| % 32768
    requires window <= 7 && level <= 3 && check < 32 && (256 * (8 + 16 * window) + check + 64 * level) % 31 == 0
    requires (forall t | t in ts :: Holds(t)) && AllInReach(ts, 0)
    requires d.stream == if d.zlib then FixedStream(window, level, check, ts) else Pack(FixedBlock(ts))
    modifies d, d.out
    ensures d.Between() && old(d.hist) <= d.hist <= AllMeant([], ts)
    ensures status == Tinfl.StatusDone ==> d.hist == AllMeant([], ts)
    ensures status in {Tinfl.StatusDone, Tinfl.NeedsMoreInput, Tinfl.HasMoreOutput}
    ensures status == Tinfl.NeedsMoreInput ==> d.Position() < |d.stream|
  {
    hide Inflate, FixedBlock, FixedStream, Pack, AllMeant, AllInReach, Holds, Tinfl.Decompressor.Between;
    FixedBlockInflates(ts);
    FixedStreamInflates(window, level, check, ts);
    status, consumed, produced := d.Decompress(chunk, outNext);
  }

  /** The driver loop on a raw or wrapped fixed block hands on what its tokens mean. */
  method DecompressFixed(source: ZlibInflate.Source, sink: ZlibInflate.Sink, readSize: nat, zlib: bool,
                         ghost window: nat, ghost level: nat, ghost check: nat, ghost ts: seq<Token>) returns (written: nat)
    requires source.pos == 0 && sink.written == [] && !sink.refused && readSize > 0
    requires window <= 7 && level <= 3 && check < 32 && (256 * (8 + 16 * window) + check + 64 * level) % 31 == 0
    requires (forall t | t in ts :: Holds(t)) && AllInReach(ts, 0)
    requires source.data == if zlib then FixedStream(window, level, check, ts) else Pack(FixedBlock(ts))
    modifies source, sink
    ensures sink.written <= AllMeant([], ts)
    ensures !sink.refused ==> sink.written == AllMeant([], ts) && written == |AllMeant([], ts)| % 0x1_0000_0000
  {
    hide Inflate, FixedBlock, FixedStream, Pack, AllMeant, AllInReach, Holds;
    FixedBlockInflates(ts);
    FixedStreamInflates(window, level, check, ts);
    written := ZlibInflate.Decompress(source, sink, readSize, zlib);
  }
}
