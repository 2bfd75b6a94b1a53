/**
 tinfl_decompress in the configuration zlib_inflate gives it: more input may follow and the
 output goes round a 32 KB ring.  The C coroutine keeps its program point in m_state; here
 every resumption point is a Label and the code between two labels is one method.
 */
module Tinfl {
  import opened Bits
  import opened Huffman
  import opened HuffTable
  import opened InflateSpec
  import opened InflateSteps
  import InflatePrefix
  import opened Sequences
  import Adler32

  const RING: nat := 32768

  /** Resumption points; the numbers are the case labels of the coroutine. */
  datatype Label =
    | Init               // 0
    | ZlibCmf            // 1
    | ZlibFlg            // 2
    | BlockStart         // 3
    | FixedStart
    | StoredHead         // 6, 7
    | StoredBits         // 51
    | StoredFlush        // 52
    | StoredCopy         // 9, 38
    | TableSizes         // 11
    | ClLengths          // 14
    | LenSymbol(fill: bool) // 16 when fill
    | LenRepeat          // 18
    | TablesStart
    | LitSymbol(fill: bool) // 23 when fill
    | LitFlush           // 24
    | LenExtra           // 25
    | DistSymbol(fill: bool) // 26 when fill
    | DistBits           // 27
    | Match
    | MatchBytes         // head of the byte loop
    | MatchFlush         // 53
    | Trailer            // 41, 42
    | Finished           // 34
    | Broken             // 10, 17, 21, 35, 36, 39

  datatype Status = Running | NeedsMoreInput | HasMoreOutput | StatusDone | StatusFailed | AdlerMismatch

  /** Appending a byte above the buffered bits. */
  lemma PushValue(buf: seq<bool>, c: byte)
    ensures Value(buf + LowBits(c, 8)) == Value(buf) + Pow2(|buf|) * c
  {
    hide LowBits, Value;
    assert c < Pow2(8) by {
      assert Pow2(8) == 256;
    }
    ValueOfLowBits(c, 8);
    ValueConcat(buf, LowBits(c, 8));
  }

  lemma PushStream(buf: seq<bool>, rest: seq<byte>)
    requires rest != []
    ensures buf + LowBits(rest[0], 8) + StreamBits(rest[1..]) == buf + StreamBits(rest)
  {
    hide LowBits;
    var a, b := LowBits(rest[0], 8), StreamBits(rest[1..]);
    assert StreamBits(rest) == a + b;
    assert buf + a + b == buf + (a + b);
  }

  lemma LowestBit(t: seq<bool>)
    requires t != []
    ensures Value(t) % 2 == BitValue(t[0]) && Value(t) / 2 == Value(t[1..])
  {
  }

  lemma BitAt(c: seq<bool>, k: nat)
    requires k < |c|
    ensures Value(c) / Pow2(k) % 2 == BitValue(c[k])
  {
    ValueSplit(c, k);
    var t := c[k..];
    assert t[0] == c[k];
    LowestBit(t);
  }

  lemma LongHasCode(lens: CodeLengths, bits: seq<bool>)
    requires Complete(lens) && |bits| >= MAX_CODE_LENGTH
    ensures HasCode(lens, bits)
  {
    var s := Covering(lens, bits);
  }

  lemma TableFacts(lens: CodeLengths, nodes: seq<seq<bool>>, look: seq<int>, tree: seq<int>)
    requires TableFor(lens, nodes, look, tree)
    ensures Complete(lens) && |lens| <= MAX_SYMBOLS
    ensures |look| == LOOKUP_SIZE && |tree| == TREE_SIZE && 2 * |nodes| <= TREE_SIZE
  {
  }

  lemma IndexOf(c: seq<bool>)
    requires |c| >= 10
    ensures Index(c[..10]) == Value(c) % LOOKUP_SIZE
  {
    Pow2Ten();
    ValueSplit(c, 10);
  }

  /** The buffered bits followed by the zeros above them in the bit buffer. */
  ghost function Padded(buf: seq<bool>): (c: seq<bool>)
    ensures buf <= c && |c| == |buf| + 15
  {
    buf + Zeros(15)
  }

  lemma CodeInBuffer(lens: CodeLengths, buf: seq<bool>, s: nat)
    requires Complete(lens) && Used(lens, s) && Code(lens, s) <= Padded(buf)
    ensures HasCode(lens, buf) <==> lens[s] <= |buf|
  {
    var c := Padded(buf);
    if lens[s] <= |buf| {
      assert Code(lens, s) == c[..lens[s]] == buf[..lens[s]];
    } else if HasCode(lens, buf) {
      var t: nat :| Used(lens, t) && Code(lens, t) <= buf;
      assert Code(lens, t) == c[..lens[t]] && Code(lens, s) == c[..lens[s]];
      PrefixFree(lens, t, s);
    }
  }

  /** The next write leaves every other slot of the window alone. */
  lemma NextRingSlot(n: nat, pos: nat)
    requires pos < RING && pos % RING == n % RING
    ensures n % RING == pos
    ensures forall k | 0 <= k < n && n + 1 - RING <= k :: k % RING != pos
  {
    forall k | 0 <= k < n && n + 1 - RING <= k
      ensures k % RING != pos
    {
      if k % RING == pos {
        assert RING * (n / RING - k / RING) == n - k;
        SmallMultiple(RING, n / RING - k / RING);
        assert false;
      }
    }
  }

  lemma CopyStep(h: seq<byte>, d: nat, n: nat)
    requires 1 <= d <= |h| && n >= 1
    ensures CopyMatch(h, d, n) == CopyMatch(h + [h[|h| - d]], d, n - 1)
  {
  }

  /** The ring slot d bytes behind the write position. */
  lemma RingSlot(n: nat, pos: nat, d: nat)
    requires pos <= RING && pos % RING == n % RING && 1 <= d <= n && d <= RING
    ensures (n - d) % RING == (pos - d) % RING
  {
    var q, r := (pos - d) / RING, (pos - d) % RING;
    assert pos - d == RING * q + r;
    var a := n / RING;
    var b := pos / RING;
    assert n - d == RING * (a - b + q) + r;
    ModUnique(n - d, RING, a - b + q, r);
  }

  lemma CallSlot(n: nat, pos: nat, d: nat)
    requires pos <= RING && pos % RING == n % RING && 1 <= d <= n && d <= pos
    ensures (n - d) % RING == pos - d
  {
    RingSlot(n, pos, d);
  }

  lemma ModUnique(x: int, d: int, q: int, r: int)
    requires 0 <= r < d && x == d * q + r
    ensures x % d == r
  {
    var q' := x / d;
    assert d * (q - q') == x % d - r by {
      assert d * (q - q') == d * q - d * q';
    }
    SmallMultiple(d, q - q');
  }

  /** Stepping source and destination together keeps them the same distance apart. */
  lemma NextSource(src: nat, pos: nat, d: nat, k: nat)
    requires src == (pos - d) % RING && src + k < RING
    ensures src + k == (pos + k - d) % RING
  {
    assert pos - d == RING * ((pos - d) / RING) + src;
    ModUnique(pos + k - d, RING, (pos - d) / RING, src + k);
  }

  lemma SourceAgrees(a: nat, b: nat, d: nat)
    requires a % RING == b % RING
    ensures (a - d) % RING == (b - d) % RING
  {
    assert a == RING * (a / RING) + a % RING && b == RING * (b / RING) + b % RING;
    var q, r := (b - d) / RING, (b - d) % RING;
    ModUnique(a - d, RING, q + a / RING - b / RING, r);
  }

  lemma SuccAgrees(a: nat, b: nat)
    requires a % RING == b % RING
    ensures (a + 1) % RING == (b + 1) % RING
  {
  }

  lemma DropDrop(s: seq<byte>, a: nat, b: nat)
    requires a + b <= |s|
    ensures s[a..][b..] == s[a + b..]
  {
  }

  lemma SliceSlice(s: seq<byte>, a: nat, m: nat, b: nat, n: nat)
    requires a + m <= |s| && b + n <= m
    ensures s[a..a + m][b..b + n] == s[a + b..][..n]
  {
    var l, r := s[a..a + m][b..b + n], s[a + b..][..n];
    assert |l| == |r| == n;
    assert forall i | 0 <= i < n :: l[i] == s[a + b + i] && r[i] == s[a + b + i];
  }

  lemma SplitAhead(a: seq<bool>, b: seq<bool>, n: nat)
    requires n <= |a|
    ensures (a + b)[..n] == a[..n] && (a + b)[n..] == a[n..] + b
  {
  }

  /** Fills a pair of cleared tables for one code. */
  method MakeTables(lens: CodeLengths) returns (ok: bool, look: seq<int>, tree: seq<int>, ghost nodes: seq<seq<bool>>)
    requires |lens| <= MAX_SYMBOLS && !Classify(lens).Unmodelled?
    ensures ok <==> Classify(lens).Usable?
    ensures ok ==> TableFor(lens, nodes, look, tree)
  {
    var lookUp, overflow := new int[LOOKUP_SIZE], new int[TREE_SIZE];
    ok, nodes := BuildTable(lens, lookUp, overflow);
    look, tree := lookUp[..], overflow[..];
  }

  class Decompressor {
    const zlib: bool                // TINFL_FLAG_PARSE_ZLIB_HEADER
    const computeAdler: bool        // TINFL_FLAG_COMPUTE_ADLER32
    const out: array<byte>          // the ring the caller passes on every call

    // tinfl_decompressor
    var state: Label
    var numBits: nat
    var bitBuf: nat
    var dist: nat
    var counter: nat
    var numExtra: nat
    var distFromStart: nat
    var zhdr0: byte
    var zAdler32: nat
    var checkAdler32: Adler32.uint32
    var final: bool
    var rawHeader: seq<byte>
    var tableSizes: seq<nat>
    var lenCodes: seq<CodeLength>
    var codeSize0: CodeLengths
    var codeSize1: CodeLengths
    var codeSize2: CodeLengths
    var lookUp0: seq<int>
    var lookUp1: seq<int>
    var lookUp2: seq<int>
    var tree0: seq<int>
    var tree1: seq<int>
    var tree2: seq<int>

    // the cursors of the current call
    var input: seq<byte>            // pIn_buf_next .. pIn_buf_end
    var inPos: nat                  // pIn_buf_cur
    var outStart: nat               // pOut_buf_next - pOut_buf_start
    var outPos: nat                 // pOut_buf_cur - pOut_buf_start

    // what the fields stand for
    ghost const stream: seq<byte>   // every byte the caller will ever supply
    ghost var base: nat             // stream position of input[0]
    ghost var buf: seq<bool>        // the unread bits in bitBuf
    ghost var hist: seq<byte>       // everything written to out so far
    ghost var called: nat           // |hist| when the current call began
    ghost var checked: nat          // how much of hist is in checkAdler32
    ghost var sum: nat              // the checksum bytes read so far
    ghost var nodes0: seq<seq<bool>>
    ghost var nodes1: seq<seq<bool>>
    ghost var nodes2: seq<seq<bool>>

    /** The bits still to be decoded: the buffered ones, then the rest of the stream. */
    ghost function Unread(): seq<bool>
      reads `buf, `base, `inPos
    {
      buf + if base + inPos <= |stream| then StreamBits(stream[base + inPos..]) else []
    }

    /** The bit buffer holds exactly the unread bits and the input cursor is in place. */
    ghost predicate BitsOk()
      reads `base, `input, `inPos, `numBits, `bitBuf, `buf
    {
      && base + |input| <= |stream| && input == stream[base..base + |input|] && inPos <= |input|
      && numBits == |buf| <= 32 && bitBuf == Value(buf)
    }

    // ---- invariant ------------------------------------------------------------

    /** The ring holds the last 32768 bytes of the unbounded output history. */
    ghost predicate OutOk()
      reads `outPos, `hist, `called, `outStart, out
    {
      && out.Length == RING && outPos <= RING && outPos % RING == |hist| % RING
      && called <= |hist| && outStart + |hist| - called == outPos
      && forall k | 0 <= k < |hist| && |hist| - RING <= k :: out[k % RING] == hist[k]
    }

    ghost predicate CheckOk()
      reads `hist, `checked, `checkAdler32
    {
      checked <= |hist| && (zlib || computeAdler ==> checkAdler32 == Adler32.Adler(hist[..checked]))
    }

    ghost predicate Sound()
      reads `base, `input, `inPos, `numBits, `bitBuf, `buf
      reads `outPos, `hist, `called, `outStart, out, `checked, `checkAdler32
    {
      BitsOk() && OutOk() && CheckOk()
    }

    /** The pure decoder, continued from here, ends as it does on the whole stream. */
    ghost predicate Ends(o: Outcome) {
      o == Inflate(zlib, stream) && o != Undefined
    }

    /** The pure decoder stands at p with h written and the unread bits ahead. */
    ghost predicate On(p: Point, h: seq<byte>)
      reads `buf, `base, `inPos, `final
    {
      Ends(Resume(Frame(zlib, final), p, Unread(), h))
    }

    ghost predicate OnBits(p: Point, bits: seq<bool>)
      reads `final, `hist
    {
      Ends(Resume(Frame(zlib, final), p, bits, hist))
    }

    ghost predicate TablesOk()
      reads `codeSize0, `nodes0, `lookUp0, `tree0, `codeSize1, `nodes1, `lookUp1, `tree1
    {
      TableFor(codeSize0, nodes0, lookUp0, tree0) && TableFor(codeSize1, nodes1, lookUp1, tree1)
    }

    ghost predicate LengthsOk()
      reads `tableSizes, `lenCodes, `counter, `codeSize2, `nodes2, `lookUp2, `tree2
    {
      && |tableSizes| == 3 && 257 <= tableSizes[0] <= 288 && 1 <= tableSizes[1] <= 32
      && |lenCodes| == 457 && counter <= 457
      && |codeSize2| == 19 && TableFor(codeSize2, nodes2, lookUp2, tree2)
    }

    // What each resumption point knows about the saved variables.

    ghost predicate InitOk()
      reads this, out
    {
      Sound() && base + inPos == 0 && hist == [] && buf == [] && Ends(Inflate(zlib, stream))
    }

    ghost predicate ZlibCmfOk()
      reads this, out
    {
      Sound() && zlib && hist == [] && buf == [] && On(AtHeader, [])
    }

    ghost predicate ZlibFlgOk()
      reads this, out
    {
      Sound() && zlib && hist == [] && buf == [] && On(AtFlags(zhdr0), [])
    }

    ghost predicate BlockStartOk()
      reads this, out
    {
      Sound() && On(AtBlock, hist)
    }

    ghost predicate FixedStartOk()
      reads this, out
    {
      Sound() && On(AtSymbol(FixedLiterals(), FixedDistances()), hist)
    }

    ghost predicate StoredHeadOk()
      reads this, out
    {
      Sound() && counter <= 4 == |rawHeader| && numBits % 8 == 0 && On(AtStoredHeader(rawHeader[..counter]), hist)
    }

    ghost predicate StoredBitsOk()
      reads this, out
    {
      Sound() && counter <= 65535 && numBits % 8 == 0 && On(AtStored(counter), hist)
    }

    ghost predicate StoredFlushOk()
      reads this, out
    {
      && Sound() && 0 < counter <= 65535 && numBits % 8 == 0 && dist < 256
      && On(AtStored(counter - 1), hist + [dist])
    }

    ghost predicate StoredCopyOk()
      reads this, out
    {
      Sound() && (counter > 0 ==> buf == []) && On(AtStored(counter), hist)
    }

    ghost predicate TableSizesOk()
      reads this, out
    {
      && Sound() && counter <= 3 == |tableSizes| && SizesOk(tableSizes[..counter])
      && On(AtSizes(tableSizes[..counter]), hist)
    }

    ghost predicate ClLengthsOk()
      reads this, out
    {
      && Sound() && |tableSizes| == 3 && SizesOk(tableSizes) && counter <= tableSizes[2] && |codeSize2| == 19
      && On(AtClLengths(tableSizes[0], tableSizes[1], tableSizes[2], counter, codeSize2), hist)
    }

    ghost predicate LenSymbolOk()
      reads this, out
    {
      && Sound() && LengthsOk()
      && (state.LenSymbol? && state.fill ==>
            counter < tableSizes[0] + tableSizes[1] && numBits < 15 && !HasCode(codeSize2, buf))
      && On(AtLengths(tableSizes[0], tableSizes[1], codeSize2, lenCodes[..counter]), hist)
    }

    ghost predicate LenRepeatOk()
      reads this, out
    {
      && Sound() && LengthsOk() && counter < tableSizes[0] + tableSizes[1] && 16 <= dist <= 18
      && (dist == 16 ==> counter > 0) && numExtra == REPEAT_BITS[dist - 16]
      && On(AtRepeat(tableSizes[0], tableSizes[1], codeSize2, lenCodes[..counter], dist), hist)
    }

    ghost predicate TablesStartOk()
      reads this, out
    {
      Sound() && |codeSize0| <= 288 && |codeSize1| <= 32
      && Ends(Tables(Frame(zlib, final), codeSize0, codeSize1, Unread(), hist))
    }

    ghost predicate LitSymbolOk()
      reads this, out
    {
      && Sound() && TablesOk()
      && (state.LitSymbol? && state.fill ==> numBits < 15 && !HasCode(codeSize0, buf))
      && On(AtSymbol(codeSize0, codeSize1), hist)
    }

    ghost predicate LitFlushOk()
      reads this, out
    {
      Sound() && TablesOk() && counter < 256 && On(AtSymbol(codeSize0, codeSize1), hist + [counter])
    }

    ghost predicate LenExtraOk()
      reads this, out
    {
      Sound() && TablesOk() && counter >= 3 && numExtra <= 5 && On(AtLength(codeSize0, codeSize1, counter, numExtra), hist)
    }

    ghost predicate DistSymbolOk()
      reads this, out
    {
      && Sound() && TablesOk() && counter >= 3
      && (state.DistSymbol? && state.fill ==> numBits < 15 && !HasCode(codeSize1, buf))
      && On(AtDistance(codeSize0, codeSize1, counter), hist)
    }

    ghost predicate DistBitsOk()
      reads this, out
    {
      && Sound() && TablesOk() && counter >= 3 && numExtra <= 13 && dist + Pow2(numExtra) <= RING + 1
      && On(AtDistExtra(codeSize0, codeSize1, counter, dist, numExtra), hist)
    }

    ghost predicate MatchOk(n: nat)
      reads this, out
    {
      && Sound() && TablesOk() && 1 <= dist <= |hist| && dist <= RING
      && On(AtSymbol(codeSize0, codeSize1), CopyMatch(hist, dist, n))
    }

    ghost predicate TrailerOk()
      reads this, out
    {
      Sound() && zlib && counter <= 4 && numBits % 8 == 0 && ChecksumOk() && On(AtChecksum(counter, sum), hist)
    }

    ghost predicate FinishedOk()
      reads this, out
    {
      Sound() && On(AtEnd(!zlib || zAdler32 == Adler32.Adler(hist)), hist)
    }

    ghost predicate BrokenOk()
      reads this, out
    {
      Sound() && On(AtFailure, hist)
    }

    /** m_z_adler32 starts at 1, which the fourth shift pushes out of its 32 bits. */
    ghost predicate ChecksumOk()
      reads `counter, `zAdler32, `sum
    {
      var top := if counter == 0 then 1 else if counter == 1 then 256 else if counter == 2 then 65536
                 else if counter == 3 then 0x100_0000 else 0x1_0000_0000;
      sum < top && zAdler32 == (sum + top) % 0x1_0000_0000
    }

    /** The coroutine will finish exactly as the pure decoder does on the whole stream. */
    ghost predicate Inv()
      reads this, out
    {
      match state
      case Init => InitOk()
      case ZlibCmf => ZlibCmfOk()
      case ZlibFlg => ZlibFlgOk()
      case BlockStart => BlockStartOk()
      case FixedStart => FixedStartOk()
      case StoredHead => StoredHeadOk()
      case StoredBits => StoredBitsOk()
      case StoredFlush => StoredFlushOk()
      case StoredCopy => StoredCopyOk()
      case TableSizes => TableSizesOk()
      case ClLengths => ClLengthsOk()
      case LenSymbol(_) => LenSymbolOk()
      case LenRepeat => LenRepeatOk()
      case TablesStart => TablesStartOk()
      case LitSymbol(_) => LitSymbolOk()
      case LitFlush => LitFlushOk()
      case LenExtra => LenExtraOk()
      case DistSymbol(_) => DistSymbolOk()
      case DistBits => DistBitsOk()
      case Match => MatchOk(counter) && counter >= 3
      case MatchBytes => MatchOk(counter) && distFromStart % RING == |hist| % RING
      case MatchFlush => MatchOk(counter + 1) && distFromStart % RING == |hist| % RING
      case Trailer => TrailerOk()
      case Finished => FinishedOk()
      case Broken => BrokenOk()
    }

    /** Orders the labels between two reads of the stream. */
    ghost function Rank(): nat
      reads `state, `counter
    {
      match state
      case Init => 12
      case ZlibCmf => 11
      case ZlibFlg => 10
      case TableSizes => 9
      case ClLengths => 8
      case LenSymbol(_) => 7
      case LenRepeat => 7
      case TablesStart => 6
      case FixedStart => 6
      case StoredHead => 140000
      case StoredFlush => 5 + 2 * counter
      case StoredBits => 6 + 2 * counter
      case StoredCopy => 5 + counter
      case LitSymbol(_) => 5
      case LitFlush => 6
      case LenExtra => 2
      case DistSymbol(_) => 1
      case DistBits => 9 + 2 * counter
      case Match => 8 + 2 * counter
      case MatchBytes => 7 + 2 * counter
      case MatchFlush => 8 + 2 * counter
      case BlockStart => 1
      case Trailer => 1
      case Finished => 0
      case Broken => 0
    }

    /** Progress towards the end of the stream, or towards the next read of it. */
    ghost predicate Down(u: seq<bool>, rank: nat)
      reads `buf, `base, `inPos, `state, `counter
    {
      |Unread()| < |u| || (|Unread()| == |u| && Rank() < rank)
    }

    /** All supplied input is used; if nothing more can come, so does the pure decoder starve. */
    ghost predicate WantsInput()
      reads this
    {
      inPos == |input| && (base + |input| == |stream| ==> Ends(Starved(hist)))
    }

    /** tinfl_init, with the ring the output will go round. */
    constructor (zlib: bool, computeAdler: bool, out: array<byte>, ghost stream: seq<byte>)
      requires out.Length == RING && Inflate(zlib, stream) != Undefined
      ensures this.zlib == zlib && this.out == out && this.stream == stream
      ensures Between() && Position() == 0 && hist == []
    {
      this.zlib, this.computeAdler, this.out, this.stream := zlib, computeAdler, out, stream;
      state, numBits, bitBuf, dist, counter, numExtra, distFromStart := Init, 0, 0, 0, 0, 0, 0;
      zhdr0, zAdler32, checkAdler32, final := 0, 1, 1, false;
      rawHeader, tableSizes, lenCodes := [], [], [];
      codeSize0, codeSize1, codeSize2 := [], [], [];
      lookUp0, lookUp1, lookUp2, tree0, tree1, tree2 := [], [], [], [], [], [];
      input, inPos, outStart, outPos := [], 0, 0, 0;
      base, buf, hist, sum, called, checked := 0, [], [], 0, 0, 0;
      nodes0, nodes1, nodes2 := [], [], [];
      new;
      FreshState();
    }

    lemma FreshState()
      requires out.Length == RING && Inflate(zlib, stream) != Undefined && state.Init?
      requires base == inPos == 0 && input == [] && buf == [] && numBits == bitBuf == 0
      requires hist == [] && outPos == outStart == called == checked == 0 && checkAdler32 == 1
      ensures Between()
    {
      hide Inflate;
      assert Adler32.Adler([]) == 1;
      assert hist[..0] == [];
      assert stream[0..0] == [];
    }

    // ---- input macros -------------------------------------------------------

    /** TINFL_GET_BYTE. */
    method GetByte() returns (ok: bool, c: byte)
      requires BitsOk()
      modifies `inPos
      ensures BitsOk()
      ensures !ok ==> inPos == old(inPos) == |input|
      ensures ok ==> inPos == old(inPos) + 1 && c == stream[base + old(inPos)] == input[old(inPos)]
    {
      hide Value;
      if inPos >= |input| {
        return false, 0;
      }
      c := input[inPos];
      inPos := inPos + 1;
      return true, c;
    }

    lemma EmptyBuffer()
      requires buf == [] && base + inPos <= |stream|
      ensures Unread() == StreamBits(stream[base + inPos..])
    {
      assert [] + StreamBits(stream[base + inPos..]) == StreamBits(stream[base + inPos..]);
    }

    lemma NextByte(k: nat)
      requires k < |stream|
      ensures StreamBits(stream[k..])[8..] == StreamBits(stream[k + 1..])
      ensures Byte(StreamBits(stream[k..])) == stream[k]
    {
      FrontByte(stream[k..]);
      assert stream[k..][1..] == stream[k + 1..];
    }

    /** TINFL_GET_BYTE when the bit buffer is empty: the next eight bits of the stream. */
    method GetWholeByte() returns (ok: bool, c: byte)
      requires BitsOk() && buf == []
      modifies `inPos
      ensures BitsOk()
      ensures !ok ==> inPos == old(inPos) == |input|
      ensures ok ==> inPos == old(inPos) + 1
      ensures ok ==> |old(Unread())| >= 8 && c == Byte(old(Unread())) && Unread() == old(Unread())[8..]
    {
      hide Byte, StreamBits, Unread;
      ok, c := GetByte();
      if ok {
        NextByte(base + old(inPos));
        EmptyBuffer();
        OldEmptyBuffer();
      }
    }

    twostate lemma OldEmptyBuffer()
      requires old(buf) == [] && old(base + inPos) <= |stream|
      ensures old(Unread()) == StreamBits(stream[old(base + inPos)..])
    {
      assert [] + StreamBits(stream[old(base + inPos)..]) == StreamBits(stream[old(base + inPos)..]);
    }

    /** bit_buf |= c << num_bits; num_bits += 8. */
    method PushByte(c: byte)
      requires BitsOk() && numBits <= 24
      requires inPos > 0 && c == input[inPos - 1]
      modifies this`bitBuf, this`numBits, this`buf
      ensures BitsOk() && numBits == old(numBits) + 8
      ensures old(buf) <= buf
      ensures buf + StreamBits(stream[base + inPos..]) == old(buf) + StreamBits(stream[base + inPos - 1..])
    {
      PushValue(buf, c);
      PushStream(buf, stream[base + inPos - 1..]);
      assert stream[base + inPos - 1..][1..] == stream[base + inPos..];
      bitBuf := bitBuf + Pow2(numBits) * c;
      numBits := numBits + 8;
      buf := buf + LowBits(c, 8);
    }

    /** Moves one byte, if there is one, from the input to the bit buffer. */
    method FetchByte() returns (ok: bool)
      requires BitsOk() && numBits <= 24
      modifies `inPos, `bitBuf, `numBits, `buf
      ensures BitsOk() && Unread() == old(Unread()) && old(buf) <= buf
      ensures ok ==> inPos == old(inPos) + 1 && numBits == old(numBits) + 8
      ensures !ok ==> inPos == old(inPos) == |input| && numBits == old(numBits) && buf == old(buf)
    {
      hide Value, StreamBits;
      var c;
      ok, c := GetByte();
      if ok {
        PushByte(c);
      }
    }

    /** TINFL_NEED_BITS. */
    method NeedBits(n: nat) returns (ok: bool)
      requires BitsOk() && numBits < n <= 15
      modifies `inPos, `bitBuf, `numBits, `buf
      ensures BitsOk() && Unread() == old(Unread()) && inPos >= old(inPos)
      ensures ok ==> n <= numBits
      ensures !ok ==> inPos == |input| && numBits < n
    {
      hide BitsOk, Unread;
      while numBits < n
        invariant BitsOk() && Unread() == old(Unread()) && inPos >= old(inPos)
        decreases n - numBits
      {
        ok := FetchByte();
        if !ok {
          return;
        }
      }
      return true;
    }

    /** Takes n buffered bits: bit_buf & ((1 << n) - 1), bit_buf >>= n, num_bits -= n. */
    method TakeBits(n: nat) returns (b: nat)
      requires BitsOk() && n <= numBits
      modifies `bitBuf, `numBits, `buf
      ensures BitsOk() && numBits == old(numBits) - n
      ensures b == Value(old(Unread())[..n]) && Unread() == old(Unread())[n..]
      ensures buf == old(buf)[n..]
    {
      hide Value, StreamBits;
      ValueSplit(buf, n);
      SplitAhead(buf, if base + inPos <= |stream| then StreamBits(stream[base + inPos..]) else [], n);
      b := bitBuf % Pow2(n);
      bitBuf := bitBuf / Pow2(n);
      numBits := numBits - n;
      buf := buf[n..];
    }

    /** TINFL_GET_BITS. */
    method GetBits(n: nat) returns (ok: bool, b: nat)
      requires BitsOk() && n <= 15
      modifies this`inPos, this`bitBuf, this`numBits, this`buf
      ensures BitsOk() && inPos >= old(inPos)
      ensures ok ==> |old(Unread())| >= n && b == Value(old(Unread())[..n]) && Unread() == old(Unread())[n..]
      ensures !ok ==> Unread() == old(Unread()) && inPos == |input| && |buf| < n
    {
      hide Value;
      if numBits < n {
        ok := NeedBits(n);
        if !ok {
          return false, 0;
        }
      }
      b := TakeBits(n);
      return true, b;
    }

    lemma BufferLength()
      requires BitsOk()
      ensures numBits == |buf| <= 32 && inPos <= |input|
    {
    }

    // ---- Huffman decoding -----------------------------------------------------

    /** The table walk for a stream whose padded buffer starts with the code of s. */
    method LookupBits(look: seq<int>, tree: seq<int>, ghost lens: CodeLengths, ghost nodes: seq<seq<bool>>, ghost s: nat)
      returns (entry: int, codeLen: nat)
      requires BitsOk() && TableFor(lens, nodes, look, tree)
      requires Used(lens, s) && Code(lens, s) <= Padded(buf)
      ensures codeLen == lens[s] && (entry == s || entry == lens[s] * 512 + s)
    {
      hide Value, TableFor, Code, PointsAt, Complete;
      ghost var c := Padded(buf);
      ValuePadded(buf, 15);
      IndexOf(c);
      TableFacts(lens, nodes, look, tree);
      LookupStep(lens, nodes, look, tree, c, s);
      entry := look[bitBuf % LOOKUP_SIZE];
      if entry >= 0 {
        codeLen := entry / 512;
        DivModUnique(entry, 512, lens[s], s);
        return;
      }
      codeLen := 10;
      while entry < 0
        invariant entry < 0 ==> 10 <= codeLen < lens[s] && PointsAt(nodes, entry, c[..codeLen])
        invariant entry >= 0 ==> entry == s && codeLen == lens[s]
        decreases 15 - codeLen, entry < 0
      {
        TreeStep(lens, nodes, look, tree, c, s, entry, codeLen);
        BitAt(c, codeLen);
        entry := tree[-entry - 1 + bitBuf / Pow2(codeLen) % 2];
        codeLen := codeLen + 1;
      }
    }

    /** Whether the bits in the buffer already contain the next code (TINFL_HUFF_BITBUF_FILL's test). */
    method BufferHoldsCode(look: seq<int>, tree: seq<int>, ghost lens: CodeLengths, ghost nodes: seq<seq<bool>>)
      returns (found: bool)
      requires BitsOk() && TableFor(lens, nodes, look, tree)
      ensures found <==> HasCode(lens, buf)
    {
      hide Value, TableFor, Code, PointsAt, Complete, HasCode;
      ghost var c := Padded(buf);
      TableFacts(lens, nodes, look, tree);
      ghost var s := Covering(lens, c);
      CodeInBuffer(lens, buf, s);
      ValuePadded(buf, 15);
      IndexOf(c);
      LookupStep(lens, nodes, look, tree, c, s);
      var temp := look[bitBuf % LOOKUP_SIZE];
      var codeLen := 0;
      if temp >= 0 {
        codeLen := temp / 512;
        DivModUnique(temp, 512, lens[s], s);
        return codeLen != 0 && numBits >= codeLen;
      }
      if numBits <= 10 {
        return false;
      }
      codeLen := 10;
      while temp < 0 && numBits >= codeLen + 1
        invariant temp < 0 ==> 10 <= codeLen < lens[s] && PointsAt(nodes, temp, c[..codeLen])
        invariant temp >= 0 ==> temp == s && codeLen == lens[s] <= numBits
        decreases 15 - codeLen, temp < 0
      {
        TreeStep(lens, nodes, look, tree, c, s, temp, codeLen);
        BitAt(c, codeLen);
        temp := tree[-temp - 1 + bitBuf / Pow2(codeLen) % 2];
        codeLen := codeLen + 1;
      }
      return temp >= 0;
    }

    /** TINFL_HUFF_BITBUF_FILL; resumed means re-entry at its TINFL_GET_BYTE. */
    method HuffFill(resumed: bool, look: seq<int>, tree: seq<int>, ghost lens: CodeLengths, ghost nodes: seq<seq<bool>>)
      returns (ok: bool)
      requires BitsOk() && TableFor(lens, nodes, look, tree) && numBits < 15
      requires resumed ==> !HasCode(lens, buf)
      modifies this`inPos, this`bitBuf, this`numBits, this`buf
      ensures BitsOk() && Unread() == old(Unread()) && inPos >= old(inPos)
      ensures ok ==> HasCode(lens, buf)
      ensures inPos > old(inPos) ==> |buf| >= 8 && !HasCode(lens, buf[..|buf| - 8])
      ensures !ok ==> inPos == |input| && numBits < 15 && !HasCode(lens, buf)
    {
      hide BitsOk, Unread, TableFor, Complete, HasCode;
      var skipTest := resumed;
      while numBits < 15
        invariant BitsOk() && Unread() == old(Unread()) && inPos >= old(inPos)
        invariant inPos > old(inPos) ==> |buf| >= 8 && !HasCode(lens, buf[..|buf| - 8])
        invariant numBits < 15 && skipTest ==> !HasCode(lens, buf)
        decreases 15 - numBits
      {
        if !skipTest {
          var found := BufferHoldsCode(look, tree, lens, nodes);
          if found {
            return true;
          }
        }
        ghost var was := buf;
        BufferLength();
        var got := FetchByte();
        if !got {
          return false;
        }
        BufferLength();
        assert buf[..|buf| - 8] == was;
        skipTest := false;
      }
      BufferLength();
      TableFacts(lens, nodes, look, tree);
      LongHasCode(lens, buf);
      return true;
    }

    /** TINFL_HUFF_DECODE. */
    method HuffDecode(resumed: bool, look: seq<int>, tree: seq<int>, ghost lens: CodeLengths, ghost nodes: seq<seq<bool>>)
      returns (ok: bool, sym: nat)
      requires BitsOk() && TableFor(lens, nodes, look, tree)
      requires resumed ==> numBits < 15 && !HasCode(lens, buf)
      modifies this`inPos, this`bitBuf, this`numBits, this`buf
      ensures BitsOk() && inPos >= old(inPos)
      ensures ok ==> Used(lens, sym) && Code(lens, sym) <= old(Unread()) && Unread() == old(Unread())[lens[sym]..]
      ensures !ok ==> Unread() == old(Unread()) && inPos == |input| && numBits < 15 && !HasCode(lens, buf)
    {
      hide Unread, Value, TableFor, Code, Complete, HasCode;
      if numBits < 15 {
        if resumed || |input| - inPos < 2 {
          ok := HuffFill(resumed, look, tree, lens, nodes);
          if !ok {
            return false, 0;
          }
        } else {
          LoadTwoBytes();
        }
      }
      TableFacts(lens, nodes, look, tree);
      if numBits >= 15 {
        LongHasCode(lens, buf);
      }
      var entry := TakeSymbol(look, tree, lens, nodes);
      return true, entry % 512;
    }

    /** Looks the next code up and drops its bits. */
    method TakeSymbol(look: seq<int>, tree: seq<int>, ghost lens: CodeLengths, ghost nodes: seq<seq<bool>>)
      returns (entry: int)
      requires BitsOk() && TableFor(lens, nodes, look, tree) && HasCode(lens, buf)
      modifies this`bitBuf, this`numBits, this`buf
      ensures BitsOk() && entry >= 0
      ensures Used(lens, entry % 512) && (entry == entry % 512 || entry == lens[entry % 512] * 512 + entry % 512)
      ensures Code(lens, entry % 512) <= old(Unread()) && Unread() == old(Unread())[lens[entry % 512]..]
    {
      hide Value, TableFor, Code, Complete;
      TableFacts(lens, nodes, look, tree);
      ghost var s: nat :| Used(lens, s) && Code(lens, s) <= buf;
      var codeLen;
      entry, codeLen := LookupBits(look, tree, lens, nodes, s);
      DivModUnique(entry, 512, entry / 512, s);
      var dropped := TakeBits(codeLen);
    }

    /** bit_buf |= pIn_buf_cur[0] << num_bits | pIn_buf_cur[1] << (num_bits + 8). */
    method LoadTwoBytes()
      requires BitsOk() && numBits < 15 && |input| - inPos >= 2
      modifies this`inPos, this`bitBuf, this`numBits, this`buf
      ensures BitsOk() && Unread() == old(Unread()) && inPos == old(inPos) + 2 && numBits == old(numBits) + 16
    {
      hide BitsOk, Unread;
      var first := FetchByte();
      var second := FetchByte();
    }

    // ---- output ---------------------------------------------------------------

    /** *pOut_buf_cur++ = c. */
    method Put(c: byte)
      requires OutOk() && CheckOk() && outPos < RING
      modifies `outPos, `hist, out
      ensures OutOk() && CheckOk() && hist == old(hist) + [c] && outPos == old(outPos) + 1
    {
      NextRingSlot(|hist|, outPos);
      assert (hist + [c])[..checked] == hist[..checked];
      out[outPos] := c;
      hist := hist + [c];
      outPos := outPos + 1;
    }

    /** Once the whole stream is supplied and taken, only buffered bits are left. */
    lemma NothingLeft()
      requires BitsOk() && inPos == |input|
      ensures base + |input| == |stream| ==> Unread() == buf
    {
      if base + |input| == |stream| {
        assert stream[base + inPos..] == [];
        assert buf + [] == buf;
      }
    }

    // ---- container ------------------------------------------------------------

    lemma AtStart()
      requires InitOk()
      ensures On(if zlib then AtHeader else AtBlock, []) && hist[..checked] == []
    {
      hide Resume, BitsOk, Inflate;
      FromStart(zlib, stream, Frame(zlib, final));
      assert stream[0..] == stream;
      assert [] + StreamBits(stream) == StreamBits(stream);
    }

    method ClearLocals()
      requires BitsOk() && buf == []
      modifies `numBits, `bitBuf, `dist, `counter, `numExtra, `zhdr0, `zAdler32
      ensures BitsOk() && zAdler32 == 1
    {
      numBits, bitBuf, dist, counter, numExtra := 0, 0, 0, 0, 0;
      zhdr0 := 0;
      zAdler32 := 1;
    }

    method StepInit()
      requires state.Init? && InitOk()
      modifies `numBits, `bitBuf, `dist, `counter, `numExtra, `zhdr0, `zAdler32, `checkAdler32, `state
      ensures if zlib then state.ZlibCmf? && ZlibCmfOk() else state.BlockStart? && BlockStartOk()
      ensures zAdler32 == 1
    {
      hide OutOk, On, BitsOk, Ends, Inflate, Resume;
      AtStart();
      assert Adler32.Adler([]) == 1;
      ClearLocals();
      checkAdler32 := 1;
      state := if zlib then ZlibCmf else BlockStart;
    }

    method StepZlibCmf() returns (ok: bool)
      requires state.ZlibCmf? && ZlibCmfOk()
      modifies `inPos, `zhdr0, `state
      ensures if ok then state.ZlibFlg? && ZlibFlgOk() else state.ZlibCmf? && ZlibCmfOk() && WantsInput()
      ensures inPos >= old(inPos) && (ok ==> |Unread()| < |old(Unread())|)
    {
      hide Resume, BitsOk, Unread, OutOk, CheckOk, Byte, Inflate;
      HeaderStep(Frame(zlib, final), Unread());
      var c;
      ok, c := GetWholeByte();
      if ok {
        zhdr0 := c;
        state := ZlibFlg;
      } else {
        NothingLeft();
      }
    }

    method StepZlibFlg() returns (ok: bool)
      requires state.ZlibFlg? && ZlibFlgOk()
      modifies `inPos, `state
      ensures if ok then (state.BlockStart? && BlockStartOk()) || (state.Broken? && BrokenOk())
              else state.ZlibFlg? && ZlibFlgOk() && WantsInput()
      ensures inPos >= old(inPos) && (ok ==> |Unread()| < |old(Unread())|)
    {
      hide Resume, BitsOk, Unread, OutOk, CheckOk, Byte, Inflate, BadZlibHeader;
      FlagsStep(Frame(zlib, final), zhdr0, Unread());
      var c;
      ok, c := GetWholeByte();
      if ok {
        state := if BadZlibHeader(zhdr0, c) then Broken else BlockStart;
      } else {
        NothingLeft();
      }
    }

    // ---- blocks ---------------------------------------------------------------

    /** Drops the bits up to the next byte boundary: TINFL_SKIP_BITS(num_bits & 7). */
    method SkipToByte()
      requires BitsOk()
      modifies `bitBuf, `numBits, `buf
      ensures BitsOk() && Unread() == Align(old(Unread())) && numBits % 8 == 0
    {
      hide Value, StreamBits;
      AlignBits();
      var skipped := TakeBits(numBits % 8);
    }

    lemma AlignBits()
      requires BitsOk()
      ensures |Unread()| % 8 == numBits % 8
    {
    }

    method StepBlockStart() returns (ok: bool)
      requires state.BlockStart? && BlockStartOk()
      modifies `inPos, `bitBuf, `numBits, `buf, `final, `counter, `rawHeader, `tableSizes, `state
      ensures if ok then
                || (state.StoredHead? && StoredHeadOk())
                || (state.FixedStart? && FixedStartOk())
                || (state.TableSizes? && TableSizesOk())
                || (state.Broken? && BrokenOk())
              else state.BlockStart? && BlockStartOk() && WantsInput()
      ensures inPos >= old(inPos)
      ensures ok ==> |Unread()| < |old(Unread())|
    {
      hide Resume, BitsOk, Unread, OutOk, CheckOk, Ends, Value, Align, FixedLiterals, FixedDistances;
      ghost var u := Unread();
      var v;
      ok, v := GetBits(3);
      if !ok {
        NothingLeft();
        BlockStarved(Frame(zlib, final), buf, hist);
        return;
      }
      BlockStep(Frame(zlib, final), u, hist, v);
      final := v % 2 == 1;
      if v / 2 == 0 {
        StartStored();
      } else if v / 2 == 3 {
        state := Broken;
      } else if v / 2 == 1 {
        state := FixedStart;
      } else {
        StartDynamic();
      }
    }

    method StartStored()
      requires Sound() && OnBits(AtStoredHeader([]), Align(Unread()))
      modifies `bitBuf, `numBits, `buf, `counter, `rawHeader, `state
      ensures state.StoredHead? && StoredHeadOk() && |Unread()| <= |old(Unread())|
    {
      hide Resume, BitsOk, Unread, OutOk, CheckOk, Ends, Align;
      SkipToByte();
      counter := 0;
      rawHeader := [0, 0, 0, 0];
      assert rawHeader[..0] == [];
      state := StoredHead;
    }

    method StartDynamic()
      requires Sound() && On(AtSizes([]), hist)
      modifies `counter, `tableSizes, `state
      ensures state.TableSizes? && TableSizesOk()
    {
      hide Resume, BitsOk, Unread, OutOk, CheckOk, Ends;
      counter := 0;
      tableSizes := [0, 0, 0];
      assert tableSizes[..0] == [];
      state := TableSizes;
    }

    /** After a block: the next one, the trailer or the end. */
    method EndBlock()
      requires Sound() && Ends(EndOfBlock(Frame(zlib, final), Unread(), hist)) && zAdler32 == 1
      modifies `bitBuf, `numBits, `buf, `counter, `sum, `state
      ensures || (state.BlockStart? && BlockStartOk())
              || (state.Trailer? && TrailerOk())
              || (state.Finished? && FinishedOk())
      ensures |Unread()| <= |old(Unread())|
    {
      hide Resume, BitsOk, Unread, OutOk, CheckOk, Ends, Align, EndOfBlock;
      BlockEnd(Frame(zlib, final), Unread(), hist);
      if !final {
        state := BlockStart;
      } else if zlib {
        SkipToByte();
        sum, counter := 0, 0;
        state := Trailer;
      } else {
        state := Finished;
      }
    }

    // ---- stored blocks --------------------------------------------------------

    /** One byte of LEN and NLEN, from the bit buffer while it holds any, or their check. */
    method StepStoredHead() returns (ok: bool)
      requires state.StoredHead? && StoredHeadOk()
      modifies `inPos, `bitBuf, `numBits, `buf, `counter, `rawHeader, `state
      ensures if ok then
                || (state.StoredHead? && StoredHeadOk() && |Unread()| < |old(Unread())|)
                || (state.StoredBits? && StoredBitsOk() && counter <= 65535 && |Unread()| == |old(Unread())|)
                || (state.Broken? && BrokenOk() && |Unread()| == |old(Unread())|)
              else state.StoredHead? && StoredHeadOk() && WantsInput()
      ensures inPos >= old(inPos)
    {
      hide Resume, BitsOk, Unread, OutOk, CheckOk, Ends, Byte, Word;
      if counter == 4 {
        StoredHeaderDone(Frame(zlib, final), rawHeader, Unread(), hist);
        assert rawHeader[..4] == rawHeader;
        counter := Word(rawHeader[0], rawHeader[1]);
        WordBound(rawHeader[0], rawHeader[1]);
        state := if counter + Word(rawHeader[2], rawHeader[3]) != 65535 then Broken else StoredBits;
        return true;
      }
      StoredHeaderStep(Frame(zlib, final), rawHeader[..counter], Unread(), hist);
      var c;
      ok, c := NextAlignedByte();
      if !ok {
        NothingLeft();
        return;
      }
      assert rawHeader[counter := c][..counter + 1] == rawHeader[..counter] + [c];
      rawHeader := rawHeader[counter := c];
      counter := counter + 1;
    }

    lemma WordBound(lo: byte, hi: byte)
      ensures Word(lo, hi) <= 65535
    {
    }

    /** if (num_bits) TINFL_GET_BITS(8) else TINFL_GET_BYTE, at a byte boundary. */
    method NextAlignedByte() returns (ok: bool, c: byte)
      requires BitsOk() && numBits % 8 == 0
      modifies `inPos, `bitBuf, `numBits, `buf
      ensures BitsOk() && numBits % 8 == 0 && inPos >= old(inPos)
      ensures ok ==> |old(Unread())| >= 8 && c == Byte(old(Unread())) && Unread() == old(Unread())[8..]
      ensures !ok ==> Unread() == old(Unread()) && inPos == |input| && buf == []
    {
      hide Unread, Value;
      if numBits > 0 {
        c := TakeAlignedByte();
        ok := true;
      } else {
        BufferLength();
        ok, c := GetWholeByte();
      }
    }

    /** TINFL_GET_BITS(8) at a byte boundary with bits in the buffer: it never has to wait. */
    method TakeAlignedByte() returns (c: byte)
      requires BitsOk() && numBits % 8 == 0 && numBits > 0
      modifies `bitBuf, `numBits, `buf
      ensures BitsOk() && numBits % 8 == 0
      ensures |old(Unread())| >= 8 && c == Byte(old(Unread())) && Unread() == old(Unread())[8..]
    {
      hide Unread, Value, BitsOk;
      UnreadLength();
      ByteIsValue(Unread());
      c := TakeBits(8);
    }

    lemma UnreadLength()
      requires BitsOk()
      ensures |Unread()| >= numBits
    {
    }

    lemma ByteIsValue(bits: seq<bool>)
      requires |bits| >= 8
      ensures Byte(bits) == Value(bits[..8])
    {
    }

    /** Stored bytes still in the bit buffer. */
    method StepStoredBits()
      requires state.StoredBits? && StoredBitsOk()
      modifies `bitBuf, `numBits, `buf, `dist, `state
      ensures || (state.StoredFlush? && StoredFlushOk() && |Unread()| < |old(Unread())|)
              || (state.StoredCopy? && StoredCopyOk() && |Unread()| == |old(Unread())|)
    {
      hide Resume, BitsOk, Unread, OutOk, CheckOk, Ends, Byte;
      BufferLength();
      if counter > 0 && numBits > 0 {
        StoredStep(Frame(zlib, final), counter, Unread(), hist);
        dist := TakeAlignedByte();
        state := StoredFlush;
      } else {
        state := StoredCopy;
      }
    }

    method StepStoredFlush() returns (ok: bool)
      requires state.StoredFlush? && StoredFlushOk()
      modifies `outPos, `hist, out, `counter, `state
      ensures if ok then state.StoredBits? && StoredBitsOk() && counter == old(counter) - 1
              else state.StoredFlush? && StoredFlushOk() && outPos == RING
      ensures old(hist) <= hist
    {
      hide Resume, BitsOk, Unread, OutOk, CheckOk, Ends;
      OutBound();
      if outPos >= RING {
        return false;
      }
      Put(dist);
      counter := counter - 1;
      state := StoredBits;
      return true;
    }

    lemma OutBound()
      requires OutOk()
      ensures outPos <= RING && out.Length == RING
    {
    }

    /** TINFL_MEMCPY of n bytes from the input to the ring. */
    method CopyStored(n: nat)
      requires BitsOk() && OutOk() && CheckOk()
      requires inPos + n <= |input| && outPos + n <= RING
      modifies `inPos, `outPos, `hist, out
      ensures BitsOk() && OutOk() && CheckOk()
      ensures inPos == old(inPos) + n && hist == old(hist) + input[old(inPos)..old(inPos) + n]
    {
      hide OutOk, CheckOk, Value;
      for i := 0 to n
        invariant BitsOk() && OutOk() && CheckOk()
        invariant inPos == old(inPos) + i && outPos == old(outPos) + i
        invariant hist == old(hist) + input[old(inPos)..old(inPos) + i]
      {
        Put(input[inPos]);
        inPos := inPos + 1;
      }
    }

    /** The rest of a stored block straight from the input. */
    method StepStoredCopy() returns (status: Status)
      requires state.StoredCopy? && StoredCopyOk() && zAdler32 == 1
      modifies `inPos, `outPos, `hist, out, `counter, `bitBuf, `numBits, `buf, `sum, `state
      ensures status == Running ==>
                || (state.StoredCopy? && StoredCopyOk() && |Unread()| < |old(Unread())|)
                || (|Unread()| <= |old(Unread())| && ((state.BlockStart? && BlockStartOk())
                    || (state.Trailer? && TrailerOk()) || (state.Finished? && FinishedOk())))
      ensures status != Running ==> state.StoredCopy? && StoredCopyOk()
      ensures status == NeedsMoreInput ==> WantsInput()
      ensures status == HasMoreOutput ==> outPos == RING
      ensures status in {Running, NeedsMoreInput, HasMoreOutput}
      ensures inPos >= old(inPos) && old(hist) <= hist
    {
      hide Resume, BitsOk, Unread, OutOk, CheckOk, Ends, EndOfBlock;
      if counter == 0 {
        BlockEnd(Frame(zlib, final), Unread(), hist);
        EndBlock();
        return Running;
      }
      OutBound();
      BufferLength();
      if outPos >= RING {
        return HasMoreOutput;
      }
      if inPos >= |input| {
        NothingLeft();
        StoredStep(Frame(zlib, final), counter, Unread(), hist);
        return NeedsMoreInput;
      }
      var n := Min(Min(RING - outPos, |input| - inPos), counter);
      TakeRun(n);
      return Running;
    }

    method TakeRun(n: nat)
      requires Sound() && buf == [] && On(AtStored(counter), hist)
      requires 0 < n <= counter && inPos + n <= |input| && outPos + n <= RING
      modifies `inPos, `outPos, `hist, out, `counter
      ensures StoredCopyOk() && |Unread()| < |old(Unread())| && inPos == old(inPos) + n && old(hist) <= hist
    {
      hide Resume, OutOk, CheckOk, Inflate, BitsOk, Unread;
      InputIsStream(n);
      EmptyBuffer();
      StoredRun(Frame(zlib, final), counter, stream[base + inPos..], hist, n);
      CopyStored(n);
      PositionOk();
      EmptyBuffer();
      counter := counter - n;
    }

    lemma PositionOk()
      requires BitsOk()
      ensures base + inPos <= |stream|
    {
    }

    lemma InputIsStream(n: nat)
      requires BitsOk() && inPos + n <= |input|
      ensures base + inPos + n <= |stream|
      ensures stream[base + inPos..][..n] == input[inPos..inPos + n]
      ensures stream[base + inPos..][n..] == stream[base + inPos + n..]
    {
      DropDrop(stream, base + inPos, n);
      SliceSlice(stream, base, |input|, inPos, n);
    }

    // ---- the header of a dynamic block ----------------------------------------

    /** HLIT, HDIST and HCLEN. */
    method StepTableSizes() returns (ok: bool)
      requires state.TableSizes? && TableSizesOk()
      modifies `inPos, `bitBuf, `numBits, `buf, `counter, `tableSizes, `codeSize2, `state
      ensures if ok then
                || (state.TableSizes? && TableSizesOk() && |Unread()| < |old(Unread())|)
                || (state.ClLengths? && ClLengthsOk() && |Unread()| == |old(Unread())|)
              else state.TableSizes? && TableSizesOk() && WantsInput()
      ensures inPos >= old(inPos)
    {
      hide Resume, BitsOk, Unread, OutOk, CheckOk, Ends, ClLengthsOk;
      if counter == 3 {
        StartClLengths();
        ok := true;
      } else {
        ok := NextTableSize();
      }
    }

    /** All three counts are there. */
    method StartClLengths()
      requires state.TableSizes? && TableSizesOk() && counter == 3
      modifies `counter, `codeSize2, `state
      ensures state.ClLengths? && ClLengthsOk()
    {
      hide Resume, BitsOk, Unread, OutOk, CheckOk, Ends, Value, SizesOk;
      assert tableSizes[..3] == tableSizes;
      SizesDone(Frame(zlib, final), tableSizes, Unread(), hist);
      SizesBound(tableSizes);
      codeSize2 := Repeat(0, 19);
      counter := 0;
      state := ClLengths;
    }

    /** One of the three counts. */
    method NextTableSize() returns (ok: bool)
      requires state.TableSizes? && TableSizesOk() && counter < 3
      modifies `inPos, `bitBuf, `numBits, `buf, `counter, `tableSizes
      ensures state.TableSizes? && TableSizesOk() && (ok ==> |Unread()| < |old(Unread())|) && (!ok ==> WantsInput())
      ensures inPos >= old(inPos)
    {
      hide Resume, BitsOk, Unread, OutOk, CheckOk, Ends, Value, SizesOk;
      SizesStep(Frame(zlib, final), tableSizes[..counter], Unread(), hist);
      var v;
      ok, v := GetBits(SIZE_BITS[counter]);
      if !ok {
        NothingLeft();
        SizesStep(Frame(zlib, final), tableSizes[..counter], Unread(), hist);
        return;
      }
      var size := v + SIZE_MIN[counter];
      assert tableSizes[counter := size][..counter + 1] == tableSizes[..counter] + [size];
      tableSizes := tableSizes[counter := size];
      counter := counter + 1;
    }

    lemma SizesBound(sizes: seq<nat>)
      requires SizesOk(sizes) && |sizes| == 3
      ensures 257 <= sizes[0] <= 288 && 1 <= sizes[1] <= 32 && 4 <= sizes[2] <= 19
    {
    }

    /** The code length code, then its tables. */
    method StepClLengths() returns (ok: bool)
      requires state.ClLengths? && ClLengthsOk()
      modifies `inPos, `bitBuf, `numBits, `buf, `counter, `codeSize2, `lookUp2, `tree2, `nodes2, `lenCodes, `state
      ensures if ok then
                || (state.ClLengths? && ClLengthsOk() && |Unread()| < |old(Unread())|)
                || (state == LenSymbol(false) && LenSymbolOk() && |Unread()| == |old(Unread())|)
                || (state.Broken? && BrokenOk() && |Unread()| == |old(Unread())|)
              else state.ClLengths? && ClLengthsOk() && WantsInput()
      ensures inPos >= old(inPos)
    {
      hide Resume, BitsOk, Unread, OutOk, CheckOk, Inflate, SizesOk, Classify, TableFor, LenSymbolOk;
      SizesBound(tableSizes);
      if counter >= tableSizes[2] {
        ClLengthsDone(Frame(zlib, final), tableSizes[0], tableSizes[1], tableSizes[2], codeSize2, Unread(), hist);
        StartLengths();
        return true;
      }
      ok := ReadClLength();
    }

    method ReadClLength() returns (ok: bool)
      requires state.ClLengths? && ClLengthsOk() && counter < tableSizes[2]
      modifies `inPos, `bitBuf, `numBits, `buf, `counter, `codeSize2
      ensures ClLengthsOk() && inPos >= old(inPos)
      ensures if ok then |Unread()| < |old(Unread())| else WantsInput()
    {
      hide Resume, BitsOk, Unread, OutOk, CheckOk, Ends, Value, SizesOk, ClSlot;
      SizesBound(tableSizes);
      ClLengthStep(Frame(zlib, final), tableSizes[0], tableSizes[1], tableSizes[2], counter, codeSize2, Unread(), hist);
      var v;
      ok, v := GetBits(3);
      if !ok {
        NothingLeft();
        ClLengthStep(Frame(zlib, final), tableSizes[0], tableSizes[1], tableSizes[2], counter, codeSize2, Unread(), hist);
        return;
      }
      codeSize2 := codeSize2[ClSlot(counter) := v];
      counter := counter + 1;
    }

    method LoadClTable() returns (ok: bool)
      requires |codeSize2| == 19 && !Classify(codeSize2).Unmodelled?
      modifies `lookUp2, `tree2, `nodes2
      ensures ok <==> Classify(codeSize2).Usable?
      ensures ok ==> TableFor(codeSize2, nodes2, lookUp2, tree2)
    {
      ok, lookUp2, tree2, nodes2 := MakeTables(codeSize2);
    }

    method StartLengths()
      requires Sound() && |tableSizes| == 3 && 257 <= tableSizes[0] <= 288 && 1 <= tableSizes[1] <= 32 && |codeSize2| == 19
      requires !Classify(codeSize2).Unmodelled?
      requires On(if Classify(codeSize2).Refused? then AtFailure
                  else AtLengths(tableSizes[0], tableSizes[1], codeSize2, []), hist)
      modifies `counter, `lookUp2, `tree2, `nodes2, `lenCodes, `state
      ensures || (state == LenSymbol(false) && LenSymbolOk())
              || (state.Broken? && BrokenOk())
    {
      hide TableFor, Classify, LenSymbolOk, On, Sound, Repeat;
      var ok := LoadClTable();
      if !ok {
        state := Broken;
        return;
      }
      counter := 0;
      lenCodes := Repeat(0, 457);
      state := LenSymbol(false);
      EnterLengths();
    }

    lemma EnterLengths()
      requires Sound() && state == LenSymbol(false) && LengthsOk() && counter == 0
      requires On(AtLengths(tableSizes[0], tableSizes[1], codeSize2, []), hist)
      ensures LenSymbolOk()
    {
      hide Resume, BitsOk, Unread, OutOk, CheckOk, Ends, TableFor, On;
      assert lenCodes[..0] == [];
    }

    /** The literal and distance code lengths. */
    method StepLenSymbol() returns (ok: bool)
      requires state.LenSymbol? && LenSymbolOk()
      modifies `inPos, `bitBuf, `numBits, `buf, `counter, `dist, `numExtra, `lenCodes, `codeSize0, `codeSize1, `state
      ensures if ok then
                || (state == LenSymbol(false) && LenSymbolOk())
                || (state.LenRepeat? && LenRepeatOk())
                || (state.TablesStart? && TablesStartOk())
                || (state.Broken? && BrokenOk())
              else state == LenSymbol(true) && LenSymbolOk() && WantsInput()
      ensures inPos >= old(inPos) && |Unread()| <= |old(Unread())|
      ensures ok && (state.LenSymbol? || state.LenRepeat?) ==> |Unread()| < |old(Unread())|
    {
      hide Resume, BitsOk, Unread, OutOk, CheckOk, Ends, TableFor, HasCode, Code, Tables;
      ghost var f, u, acc := Frame(zlib, final), Unread(), lenCodes[..counter];
      if counter >= tableSizes[0] + tableSizes[1] {
        LengthsDone(f, tableSizes[0], tableSizes[1], codeSize2, acc, u, hist);
        FinishLengths();
        return true;
      }
      ok := NextLengthSymbol();
      if ok {
        UseLengthSymbol();
      }
    }

    /** What the pure decoder does after the length symbol in dist. */
    ghost predicate OnLengthSymbol()
      requires LengthsOk() && dist <= 18
      reads `buf, `base, `inPos, `final, `hist, `tableSizes, `lenCodes, `counter, `codeSize2, `nodes2, `lookUp2, `tree2, `dist
    {
      On(if dist < 16 then AtLengths(tableSizes[0], tableSizes[1], codeSize2, lenCodes[..counter] + [dist])
         else if dist == 16 && counter == 0 then AtFailure
         else AtRepeat(tableSizes[0], tableSizes[1], codeSize2, lenCodes[..counter], dist), hist)
    }

    /** Decode one symbol of the code length code into dist. */
    method NextLengthSymbol() returns (ok: bool)
      requires state.LenSymbol? && LenSymbolOk() && counter < tableSizes[0] + tableSizes[1]
      modifies `inPos, `bitBuf, `numBits, `buf, `dist, `state
      ensures ok ==> Sound() && LengthsOk() && dist <= 18 && OnLengthSymbol()
      ensures !ok ==> state == LenSymbol(true) && LenSymbolOk() && WantsInput()
      ensures inPos >= old(inPos) && |Unread()| <= |old(Unread())|
      ensures ok ==> |Unread()| < |old(Unread())|
    {
      hide Resume, BitsOk, Unread, OutOk, CheckOk, Ends, TableFor, HasCode, Code, Tables, OnLengthSymbol;
      ghost var f, u, acc := Frame(zlib, final), Unread(), lenCodes[..counter];
      ok, dist := HuffDecode(state.fill, lookUp2, tree2, codeSize2, nodes2);
      if !ok {
        NothingLeft();
        LengthStarvedIf(f, acc);
        state := LenSymbol(true);
        WaitForLength();
        return;
      }
      LengthTaken(u);
    }

    lemma WaitForLength()
      requires state == LenSymbol(true) && Sound() && LengthsOk() && counter < tableSizes[0] + tableSizes[1]
      requires On(AtLengths(tableSizes[0], tableSizes[1], codeSize2, lenCodes[..counter]), hist)
      requires numBits < 15 && !HasCode(codeSize2, buf)
      ensures LenSymbolOk()
    {
      hide Sound, On, HasCode;
    }

    /** The symbol in dist, taken from the front of u, leads the pure decoder on. */
    lemma LengthTaken(u: seq<bool>)
      requires LengthsOk() && counter < tableSizes[0] + tableSizes[1]
      requires Used(codeSize2, dist) && Code(codeSize2, dist) <= u && Unread() == u[codeSize2[dist]..]
      requires Ends(Resume(Frame(zlib, final), AtLengths(tableSizes[0], tableSizes[1], codeSize2, lenCodes[..counter]),
                           u, hist))
      ensures dist <= 18 && OnLengthSymbol()
    {
      hide Resume, Unread, Ends, TableFor, Code;
      TableFacts(codeSize2, nodes2, lookUp2, tree2);
      LengthStep(Frame(zlib, final), tableSizes[0], tableSizes[1], codeSize2, lenCodes[..counter], dist, u, hist);
    }

    /** A length symbol just decoded into dist: a length, or the start of a repeat. */
    method UseLengthSymbol()
      requires Sound() && LengthsOk() && dist <= 18 && counter < tableSizes[0] + tableSizes[1] && OnLengthSymbol()
      modifies `counter, `numExtra, `lenCodes, `state
      ensures || (state == LenSymbol(false) && LenSymbolOk())
              || (state.LenRepeat? && LenRepeatOk())
              || (state.Broken? && BrokenOk())
    {
      hide Resume, BitsOk, Unread, OutOk, CheckOk, Ends, TableFor, HasCode, On, Sound;
      if dist < 16 {
        assert lenCodes[counter := dist][..counter + 1] == lenCodes[..counter] + [dist];
        lenCodes := lenCodes[counter := dist];
        counter := counter + 1;
        state := LenSymbol(false);
      } else if dist == 16 && counter == 0 {
        state := Broken;
      } else {
        numExtra := REPEAT_BITS[dist - 16];
        state := LenRepeat;
      }
    }

    lemma LengthStarvedIf(f: Frame, acc: CodeLengths)
      requires |codeSize2| == 19 && |tableSizes| == 3 && tableSizes[0] >= 1 && |acc| < tableSizes[0] + tableSizes[1]
      requires !HasCode(codeSize2, buf)
      ensures Resume(f, AtLengths(tableSizes[0], tableSizes[1], codeSize2, acc), buf, hist) == Starved(hist)
    {
      LengthStarved(f, tableSizes[0], tableSizes[1], codeSize2, acc, buf, hist);
    }

    /** m_len_codes is full: split it into the two code length vectors. */
    method FinishLengths()
      requires Sound() && LengthsOk() && counter >= tableSizes[0] + tableSizes[1]
      requires Ends(if counter > tableSizes[0] + tableSizes[1]
                    then Resume(Frame(zlib, final), AtFailure, Unread(), hist)
                    else Tables(Frame(zlib, final), lenCodes[..counter][..tableSizes[0]],
                                lenCodes[..counter][tableSizes[0]..], Unread(), hist))
      modifies `codeSize0, `codeSize1, `state
      ensures || (state.TablesStart? && TablesStartOk())
              || (state.Broken? && BrokenOk())
    {
      hide Resume, BitsOk, Unread, OutOk, CheckOk, Ends, TableFor, Tables;
      if tableSizes[0] + tableSizes[1] != counter {
        state := Broken;
        return;
      }
      codeSize0 := lenCodes[..tableSizes[0]];
      codeSize1 := lenCodes[tableSizes[0]..tableSizes[0] + tableSizes[1]];
      assert codeSize0 == lenCodes[..counter][..tableSizes[0]];
      assert codeSize1 == lenCodes[..counter][tableSizes[0]..];
      state := TablesStart;
    }

    /** A repeat count; TINFL_MEMSET writes the run. */
    method StepLenRepeat() returns (ok: bool)
      requires state.LenRepeat? && LenRepeatOk()
      modifies `inPos, `bitBuf, `numBits, `buf, `counter, `lenCodes, `state
      ensures if ok then state == LenSymbol(false) && LenSymbolOk() && |Unread()| < |old(Unread())|
              else state.LenRepeat? && LenRepeatOk() && WantsInput()
      ensures inPos >= old(inPos)
    {
      hide Resume, BitsOk, Unread, OutOk, CheckOk, Ends, TableFor, Value, OnRun, LenSymbolOk;
      ghost var u := Unread();
      var s;
      ok, s := GetBits(numExtra);
      if !ok {
        NothingLeft();
        RepeatStep(Frame(zlib, final), tableSizes[0], tableSizes[1], codeSize2, lenCodes[..counter], dist, Unread(), hist);
        return;
      }
      RunTaken(u, s);
      s := s + REPEAT_MIN[dist - 16];
      RepeatRun(s);
    }

    /** The extra bits of a run, taken from the front of u, say how long it is. */
    lemma RunTaken(u: seq<bool>, v: nat)
      requires LengthsOk() && 16 <= dist <= 18 && (dist == 16 ==> counter > 0) && |u| >= REPEAT_BITS[dist - 16]
      requires v == Value(u[..REPEAT_BITS[dist - 16]]) && Unread() == u[REPEAT_BITS[dist - 16]..]
      requires Ends(Resume(Frame(zlib, final), AtRepeat(tableSizes[0], tableSizes[1], codeSize2, lenCodes[..counter], dist),
                           u, hist))
      ensures REPEAT_MIN[dist - 16] + v <= 138 && OnRun(REPEAT_MIN[dist - 16] + v)
    {
      hide Resume, Unread, Ends, TableFor, Value;
      RepeatStep(Frame(zlib, final), tableSizes[0], tableSizes[1], codeSize2, lenCodes[..counter], dist, u, hist);
      RepeatBound(u, dist);
    }

    /** The pure decoder behind a run of s lengths. */
    ghost predicate OnRun(s: nat)
      requires LengthsOk() && 16 <= dist <= 18 && (dist == 16 ==> counter > 0)
      reads `buf, `base, `inPos, `final, `hist, `tableSizes, `lenCodes, `counter, `codeSize2, `nodes2, `lookUp2, `tree2, `dist
    {
      On(AtLengths(tableSizes[0], tableSizes[1], codeSize2,
                   lenCodes[..counter] + Repeat(if dist == 16 then lenCodes[..counter][counter - 1] else 0, s)), hist)
    }

    /** TINFL_MEMSET of a run of s lengths. */
    method RepeatRun(s: nat)
      requires Sound() && LengthsOk() && 16 <= dist <= 18 && (dist == 16 ==> counter > 0) && counter + s <= 457 && OnRun(s)
      modifies `counter, `lenCodes, `state
      ensures state == LenSymbol(false) && LenSymbolOk()
    {
      hide Resume, BitsOk, Unread, OutOk, CheckOk, Ends, TableFor, HasCode, On, Sound;
      var v := if dist == 16 then lenCodes[counter - 1] else 0;
      lenCodes := FillLengths(lenCodes, counter, v, s);
      counter := counter + s;
      state := LenSymbol(false);
    }

    lemma RepeatBound(u: seq<bool>, d: nat)
      requires 16 <= d <= 18 && |u| >= REPEAT_BITS[d - 16]
      ensures REPEAT_MIN[d - 16] + Value(u[..REPEAT_BITS[d - 16]]) <= 138
    {
      assert Pow2(2) == 4 && Pow2(3) == 8 && Pow2(7) == 128;
    }

    // ---- tables of a compressed block -------------------------------------------

    method LoadTables() returns (ok: bool)
      requires |codeSize0| <= 288 && |codeSize1| <= 32
      requires !Classify(codeSize1).Unmodelled? && (Classify(codeSize1).Usable? ==> !Classify(codeSize0).Unmodelled?)
      modifies `lookUp0, `tree0, `nodes0, `lookUp1, `tree1, `nodes1
      ensures ok <==> Classify(codeSize1).Usable? && Classify(codeSize0).Usable?
      ensures ok ==> TablesOk()
    {
      hide TableFor, Classify;
      ok, lookUp1, tree1, nodes1 := MakeTables(codeSize1);
      if ok {
        ok, lookUp0, tree0, nodes0 := MakeTables(codeSize0);
      }
    }

    method StepTablesStart()
      requires state.TablesStart? && TablesStartOk()
      modifies `lookUp0, `tree0, `nodes0, `lookUp1, `tree1, `nodes1, `state
      ensures (state == LitSymbol(false) && LitSymbolOk()) || (state.Broken? && BrokenOk())
    {
      hide Resume, Sound, Unread, Inflate, TablesOk, Classify, Tables;
      TablesStep(Frame(zlib, final), codeSize0, codeSize1, Unread(), hist);
      var ok := LoadTables();
      state := if ok then LitSymbol(false) else Broken;
    }

    method StepFixedStart()
      requires state.FixedStart? && FixedStartOk()
      modifies `codeSize0, `codeSize1, `lookUp0, `tree0, `nodes0, `lookUp1, `tree1, `nodes1, `state
      ensures state == LitSymbol(false) && LitSymbolOk()
    {
      hide Sound, On, TablesOk, Complete, FixedLiterals, FixedDistances;
      FixedLiteralsComplete();
      FixedDistancesComplete();
      codeSize0, codeSize1 := FixedLiterals(), FixedDistances();
      var ok := LoadTables();
      state := LitSymbol(false);
    }

    // ---- compressed data --------------------------------------------------------

    method StepLitSymbol() returns (ok: bool)
      requires state.LitSymbol? && LitSymbolOk() && zAdler32 == 1
      modifies `inPos, `bitBuf, `numBits, `buf, `outPos, `hist, out, `counter, `numExtra, `sum, `state
      ensures if ok then AfterSymbol() && |Unread()| < |old(Unread())|
              else state == LitSymbol(true) && LitSymbolOk() && WantsInput()
      ensures inPos >= old(inPos) && old(hist) <= hist
    {
      hide Sound, On, Unread, AfterSymbol, TablesOk, HasCode;
      Bounds();
      if state.fill || |input| - inPos < 4 || RING - outPos < 2 {
        ok := OneSymbol(state.fill);
      } else {
        TwoSymbols();
        ok := true;
      }
    }

    lemma Bounds()
      requires Sound()
      ensures numBits == |buf| <= 32 && inPos <= |input| && outPos <= RING && out.Length == RING
      ensures base + |input| <= |stream| && called <= |hist| && outStart + |hist| - called == outPos
    {
    }

    /** Where a decoded literal/length symbol leads. */
    ghost predicate AfterSymbol()
      reads this, out
    {
      || (state == LitSymbol(false) && LitSymbolOk())
      || (state.LitFlush? && LitFlushOk())
      || (state.LenExtra? && LenExtraOk())
      || (state.BlockStart? && BlockStartOk())
      || (state.Trailer? && TrailerOk())
      || (state.Finished? && FinishedOk())
    }

    lemma HoldsTables()
      requires TablesOk()
      ensures TableFor(codeSize0, nodes0, lookUp0, tree0) && Complete(codeSize0) && |codeSize0| <= 288
      ensures TableFor(codeSize1, nodes1, lookUp1, tree1) && Complete(codeSize1) && |codeSize1| <= 288
    {
    }

    /** The careful path near the end of either buffer. */
    method OneSymbol(fill: bool) returns (ok: bool)
      requires Sound() && TablesOk() && On(AtSymbol(codeSize0, codeSize1), hist) && zAdler32 == 1
      requires fill ==> numBits < 15 && !HasCode(codeSize0, buf)
      modifies `inPos, `bitBuf, `numBits, `buf, `counter, `numExtra, `sum, `state
      ensures if ok then AfterSymbol() && |Unread()| < |old(Unread())|
              else state == LitSymbol(true) && LitSymbolOk() && WantsInput()
      ensures inPos >= old(inPos)
    {
      hide Resume, Sound, Unread, TablesOk, HasCode, AfterSymbol, On, OnSymbol, LitSymbolOk, WantsInput;
      ok := NextSymbol(fill);
      if ok {
        UseSymbol();
      }
    }

    /** Decode one literal or length symbol into counter. */
    method NextSymbol(fill: bool) returns (ok: bool)
      requires Sound() && TablesOk() && On(AtSymbol(codeSize0, codeSize1), hist) && zAdler32 == 1
      requires fill ==> numBits < 15 && !HasCode(codeSize0, buf)
      modifies `inPos, `bitBuf, `numBits, `buf, `counter, `state
      ensures if ok then Sound() && TablesOk() && OnSymbol(counter, hist) && |Unread()| < |old(Unread())|
              else state == LitSymbol(true) && LitSymbolOk() && WantsInput()
      ensures inPos >= old(inPos)
    {
      hide Resume, BitsOk, Unread, OutOk, CheckOk, Ends, TablesOk, TableFor, HasCode, Code, Complete, OnSymbol, LitSymbolOk;
      ghost var u := Unread();
      HoldsTables();
      ok, counter := HuffDecode(fill, lookUp0, tree0, codeSize0, nodes0);
      if !ok {
        NothingLeft();
        SymbolStarved(Frame(zlib, final), codeSize0, codeSize1, buf, hist);
        state := LitSymbol(true);
        WaitForSymbol();
        return;
      }
      SymbolTaken(u, counter);
    }

    /** A symbol taken from the front of u leads the pure decoder on. */
    lemma SymbolTaken(u: seq<bool>, s: nat)
      requires Complete(codeSize0) && Used(codeSize0, s) && Code(codeSize0, s) <= u && Unread() == u[codeSize0[s]..]
      requires Ends(Resume(Frame(zlib, final), AtSymbol(codeSize0, codeSize1), u, hist))
      ensures OnSymbol(s, hist)
    {
      hide Resume, Unread, Ends, Complete, Code, LengthBase, LengthExtra;
      SymbolStep(Frame(zlib, final), codeSize0, codeSize1, s, u, hist);
    }

    lemma WaitForSymbol()
      requires state == LitSymbol(true) && Sound() && TablesOk() && On(AtSymbol(codeSize0, codeSize1), hist)
      requires zAdler32 == 1 && numBits < 15 && !HasCode(codeSize0, buf)
      ensures LitSymbolOk()
    {
      hide Sound, TablesOk, On, HasCode;
    }

    /** What the pure decoder does after symbol s with h written. */
    ghost predicate OnSymbol(s: nat, h: seq<byte>)
      reads `buf, `base, `inPos, `final, `codeSize0, `codeSize1
    {
      Ends(if s < 256 then Resume(Frame(zlib, final), AtSymbol(codeSize0, codeSize1), Unread(), h + [s])
           else if s == 256 then EndOfBlock(Frame(zlib, final), Unread(), h)
           else if s > 285 then Undefined
           else Resume(Frame(zlib, final), AtLength(codeSize0, codeSize1, LengthBase(s - 257), LengthExtra(s - 257)),
                       Unread(), h))
    }

    /** A symbol just decoded into counter by the careful path. */
    method UseSymbol()
      requires Sound() && TablesOk() && OnSymbol(counter, hist) && zAdler32 == 1
      modifies `bitBuf, `numBits, `buf, `counter, `numExtra, `sum, `state
      ensures AfterSymbol() && |Unread()| <= |old(Unread())|
    {
      hide Resume, Sound, Unread, TablesOk, EndOfBlock, AfterSymbol;
      if counter < 256 {
        state := LitFlush;
        MakeLitFlush();
      } else if counter == 256 {
        EndBlock();
        MakeBlockEnd();
      } else {
        StartMatch();
      }
    }

    lemma MakeLitFlush()
      requires Sound() && TablesOk() && state.LitFlush? && counter < 256 && OnSymbol(counter, hist)
      ensures AfterSymbol()
    {
      hide Sound, TablesOk, Unread, Resume;
    }

    lemma MakeBlockEnd()
      requires (state.BlockStart? && BlockStartOk()) || (state.Trailer? && TrailerOk()) || (state.Finished? && FinishedOk())
      ensures AfterSymbol()
    {
    }

    /** A length symbol: its base and the number of extra bits. */
    method StartMatch()
      requires Sound() && TablesOk() && counter > 256 && OnSymbol(counter, hist)
      modifies `counter, `numExtra, `state
      ensures AfterSymbol()
    {
      hide Sound, TablesOk, Unread, Resume, LengthBase, LengthExtra;
      LengthTable(counter - 257);
      numExtra := LengthExtra(counter - 257);
      counter := LengthBase(counter - 257);
      state := LenExtra;
    }

    lemma LengthTable(i: nat)
      requires i < 29
      ensures LengthExtra(i) <= 5 && LengthBase(i) >= 3
    {
    }

    /** The fast path: two symbols without checking the buffers in between. */
    method TwoSymbols()
      requires Sound() && TablesOk() && On(AtSymbol(codeSize0, codeSize1), hist) && zAdler32 == 1
      requires |input| - inPos >= 4 && RING - outPos >= 2
      modifies `inPos, `bitBuf, `numBits, `buf, `outPos, `hist, out, `counter, `numExtra, `sum, `state
      ensures AfterSymbol() && |Unread()| < |old(Unread())|
      ensures inPos >= old(inPos) && old(hist) <= hist
    {
      hide Sound, Unread, TablesOk, AfterSymbol, OnSymbol, On;
      var sym1 := FastSymbol();
      counter := sym1;
      ghost var s1 := sym1 % 512;
      EntryFields(sym1, s1);
      if sym1 / 256 % 2 == 1 {
        counter := sym1 % 512;
        UseSymbol();
        return;
      }
      SecondSymbol(sym1 % 256);
    }

    /** The second half of the fast path, with the first literal still to be written. */
    method SecondSymbol(first: byte)
      requires Sound() && TablesOk() && OnSymbol(first, hist) && zAdler32 == 1
      requires |input| - inPos >= 2 && RING - outPos >= 2
      modifies `inPos, `bitBuf, `numBits, `buf, `outPos, `hist, out, `counter, `numExtra, `sum, `state
      ensures AfterSymbol() && |Unread()| < |old(Unread())|
      ensures inPos >= old(inPos) && old(hist) <= hist
    {
      hide Sound, Unread, TablesOk, AfterSymbol, OnSymbol, On;
      LiteralFollows(first, hist);
      var sym2 := FastSymbolAfter(hist + [first]);
      EntryFields(sym2, sym2 % 512);
      PutSound(first);
      counter := sym2 % 512;
      if sym2 / 256 % 2 == 1 {
        UseSymbol();
      } else {
        PutLiteral(sym2 % 256);
      }
    }

    method PutLiteral(c: byte)
      requires Sound() && TablesOk() && OnSymbol(c, hist) && outPos < RING
      modifies `outPos, `hist, out, `state
      ensures AfterSymbol() && old(hist) <= hist
    {
      hide Sound, Unread, TablesOk, AfterSymbol, OnSymbol, On;
      LiteralFollows(c, hist);
      PutSound(c);
      state := LitSymbol(false);
      MakeLitSymbol();
    }

    lemma MakeLitSymbol()
      requires Sound() && TablesOk() && On(AtSymbol(codeSize0, codeSize1), hist) && state == LitSymbol(false)
      ensures AfterSymbol()
    {
      hide Sound, TablesOk, On;
    }

    lemma LiteralFollows(s: nat, h: seq<byte>)
      requires OnSymbol(s, h) && s < 256
      ensures On(AtSymbol(codeSize0, codeSize1), h + [s])
    {
      hide Resume;
    }

    method PutSound(c: byte)
      requires Sound() && outPos < RING
      modifies `outPos, `hist, out
      ensures Sound() && hist == old(hist) + [c] && outPos == old(outPos) + 1
    {
      hide BitsOk, OutOk, CheckOk;
      Put(c);
    }

    /** MZ_READ_LE16 when fewer than 15 bits are left, then one table lookup. */
    method FastSymbol() returns (entry: int)
      requires Sound() && TablesOk() && On(AtSymbol(codeSize0, codeSize1), hist) && |input| - inPos >= 2
      modifies `inPos, `bitBuf, `numBits, `buf
      ensures Sound() && entry >= 0 && OnSymbol(entry % 512, hist) && IsEntry(entry)
      ensures |Unread()| < |old(Unread())| && old(inPos) <= inPos <= old(inPos) + 2
    {
      entry := FastSymbolAfter(hist);
    }

    /** The same with h the history once the pending literal is written. */
    method FastSymbolAfter(ghost h: seq<byte>) returns (entry: int)
      requires Sound() && TablesOk() && On(AtSymbol(codeSize0, codeSize1), h) && |input| - inPos >= 2
      modifies `inPos, `bitBuf, `numBits, `buf
      ensures Sound() && entry >= 0 && OnSymbol(entry % 512, h) && IsEntry(entry)
      ensures |Unread()| < |old(Unread())| && old(inPos) <= inPos <= old(inPos) + 2
    {
      hide Resume, BitsOk, Unread, OutOk, CheckOk, Ends, TablesOk, TableFor, HasCode, Code, Complete;
      HoldsTables();
      BufferLength();
      if numBits < 15 {
        LoadTwoBytes();
      }
      BufferLength();
      LongHasCode(codeSize0, buf);
      ghost var u := Unread();
      entry := TakeSymbol(lookUp0, tree0, codeSize0, nodes0);
      SymbolStep(Frame(zlib, final), codeSize0, codeSize1, entry % 512, u, h);
    }

    ghost predicate IsEntry(entry: int)
      reads `codeSize0
    {
      entry >= 0 && entry % 512 < 288
      && (entry == entry % 512 || (entry % 512 < |codeSize0| && entry == codeSize0[entry % 512] * 512 + entry % 512))
    }

    /** The flag in bit 8 and the byte in bits 0 to 7 survive the length stored above bit 9. */
    lemma EntryFields(entry: int, s: nat)
      requires entry >= 0 && s == entry % 512 && s < 288
      ensures entry / 256 % 2 == 1 <==> s >= 256
      ensures s < 256 ==> entry % 256 == s
    {
      var q := entry / 512;
      assert entry == 512 * q + s;
      if s < 256 {
        DivModUnique(entry, 256, 2 * q, s);
      } else {
        DivModUnique(entry, 256, 2 * q + 1, s - 256);
      }
    }

    method StepLitFlush() returns (ok: bool)
      requires state.LitFlush? && LitFlushOk()
      modifies `outPos, `hist, out, `state
      ensures if ok then state == LitSymbol(false) && LitSymbolOk()
              else state.LitFlush? && LitFlushOk() && outPos == RING
      ensures old(hist) <= hist
    {
      hide Sound, Unread, TablesOk, On, HasCode;
      Bounds();
      if outPos >= RING {
        return false;
      }
      PutSound(counter);
      state := LitSymbol(false);
      return true;
    }

    // ---- matches --------------------------------------------------------------

    method StepLenExtra() returns (ok: bool)
      requires state.LenExtra? && LenExtraOk()
      modifies `inPos, `bitBuf, `numBits, `buf, `counter, `state
      ensures if ok then state == DistSymbol(false) && DistSymbolOk()
              else state.LenExtra? && LenExtraOk() && WantsInput()
      ensures inPos >= old(inPos) && |Unread()| <= |old(Unread())|
    {
      hide Resume, BitsOk, Unread, OutOk, CheckOk, Ends, TablesOk, Value, HasCode;
      MatchLengthStep(Frame(zlib, final), codeSize0, codeSize1, counter, numExtra, Unread(), hist);
      var extraBits;
      ok, extraBits := GetBits(numExtra);
      if !ok {
        NothingLeft();
        MatchLengthStep(Frame(zlib, final), codeSize0, codeSize1, counter, numExtra, Unread(), hist);
        return;
      }
      counter := counter + extraBits;
      state := DistSymbol(false);
    }

    method StepDistSymbol() returns (ok: bool)
      requires state.DistSymbol? && DistSymbolOk()
      modifies `inPos, `bitBuf, `numBits, `buf, `dist, `numExtra, `state
      ensures if ok then state.DistBits? && DistBitsOk() && |Unread()| < |old(Unread())|
              else state == DistSymbol(true) && DistSymbolOk() && WantsInput()
      ensures inPos >= old(inPos)
    {
      hide Resume, BitsOk, Unread, OutOk, CheckOk, Ends, TablesOk, TableFor, HasCode, Code, Complete, DistBase, DistExtra;
      ghost var u := Unread();
      HoldsTables();
      var sym;
      ok, sym := HuffDecode(state.fill, lookUp1, tree1, codeSize1, nodes1);
      if !ok {
        NothingLeft();
        DistanceStarved(Frame(zlib, final), codeSize0, codeSize1, counter, buf, hist);
        state := DistSymbol(true);
        return;
      }
      DistanceStep(Frame(zlib, final), codeSize0, codeSize1, counter, sym, u, hist);
      UseDistance(sym);
    }

    method UseDistance(sym: nat)
      requires Sound() && TablesOk() && counter >= 3
      requires Ends(if sym >= 30 then Undefined
                    else Resume(Frame(zlib, final),
                           AtDistExtra(codeSize0, codeSize1, counter, DistBase(sym), DistExtra(sym)), Unread(), hist))
      modifies `dist, `numExtra, `state
      ensures state.DistBits? && DistBitsOk()
    {
      hide Resume, Sound, Unread, TablesOk, DistBase, DistExtra;
      DistanceTable(sym);
      numExtra, dist := DistExtra(sym), DistBase(sym);
      state := DistBits;
    }

    lemma DistanceTable(i: nat)
      requires i < 30
      ensures DistExtra(i) <= 13 && DistBase(i) + Pow2(DistExtra(i)) <= RING + 1
    {
      hide Pow2;
      SmallPowers();
    }

    method StepDistBits() returns (ok: bool)
      requires state.DistBits? && DistBitsOk()
      modifies `inPos, `bitBuf, `numBits, `buf, `dist, `state
      ensures if ok then state.Match? && MatchOk(counter) && counter >= 3
              else state.DistBits? && DistBitsOk() && WantsInput()
      ensures inPos >= old(inPos) && |Unread()| <= |old(Unread())|
    {
      hide Resume, BitsOk, Unread, OutOk, CheckOk, Inflate, TablesOk, Value, CopyMatch;
      ghost var u := Unread();
      var extraBits;
      ok, extraBits := GetBits(numExtra);
      if !ok {
        NothingLeft();
        DistStarvedIf();
        return;
      }
      DistExtraStep(Frame(zlib, final), codeSize0, codeSize1, counter, dist, numExtra, u, hist, dist + extraBits);
      dist := dist + extraBits;
      state := Match;
    }

    lemma DistStarvedIf()
      requires |buf| < numExtra
      ensures Resume(Frame(zlib, final), AtDistExtra(codeSize0, codeSize1, counter, dist, numExtra), buf, hist) == Starved(hist)
    {
      DistExtraStarved(Frame(zlib, final), codeSize0, codeSize1, counter, dist, numExtra, buf, hist);
    }

    /** Reading the ring at a slot congruent to distance d back reads that byte of the history. */
    lemma RingRead(src: nat, d: nat)
      requires OutOk() && 1 <= d <= |hist| && d <= RING && src < RING
      requires src == (outPos - d) % RING
      ensures out[src] == hist[|hist| - d]
    {
      RingSlot(|hist|, outPos, d);
    }

    /** *pOut_buf_cur++ = *pSrc. */
    method CopyOne(src: nat)
      requires Sound() && 1 <= dist <= |hist| && dist <= RING && src < RING && outPos < RING
      requires src == (outPos - dist) % RING
      modifies `outPos, `hist, out
      ensures Sound() && hist == old(hist) + [old(hist)[|old(hist)| - dist]] && outPos == old(outPos) + 1
    {
      hide BitsOk, OutOk, CheckOk;
      OutBound();
      RingRead(src, dist);
      PutSound(out[src]);
    }

    /** Either the byte loop, or the unrolled copy when neither side reaches the end of the ring. */
    method StepMatch()
      requires state.Match? && MatchOk(counter) && counter >= 3
      modifies `outPos, `hist, out, `counter, `distFromStart, `state
      ensures || (state.MatchBytes? && MatchOk(counter) && distFromStart % RING == |hist| % RING && counter == old(counter))
              || (state == LitSymbol(false) && LitSymbolOk())
      ensures old(hist) <= hist
    {
      hide Sound, Unread, TablesOk, On, HasCode, CopyMatch;
      Bounds();
      SameSlot();
      distFromStart := outPos;
      var src := (distFromStart - dist) % RING;
      if Max(outPos, src) + counter > RING {
        state := MatchBytes;
      } else {
        CopyUnrolled(src);
        state := LitSymbol(false);
      }
    }

    lemma SameSlot()
      requires Sound()
      ensures outPos % RING == |hist| % RING
    {
    }

    /** Three bytes a round, then the one or two left over. */
    method CopyUnrolled(src0: nat)
      requires MatchOk(counter) && counter >= 3
      requires src0 == (outPos - dist) % RING && outPos + counter <= RING && src0 + counter <= RING
      modifies `outPos, `hist, out, `counter
      ensures Sound() && TablesOk() && On(AtSymbol(codeSize0, codeSize1), hist) && old(hist) <= hist
    {
      hide Sound, Unread, TablesOk, On, CopyMatch;
      var src: nat := src0;
      while counter > 2
        invariant MatchOk(counter)
        invariant src + counter <= RING && outPos + counter <= RING
        invariant counter > 0 ==> src == (outPos - dist) % RING
        invariant old(hist) <= hist
        decreases counter
      {
        CopyThree(src);
        src := src + 3;
        counter := counter - 3;
        if counter > 0 {
          NextSource(src - 3, outPos - 3, dist, 3);
        }
      }
      CopyTail(src);
    }

    method CopyThree(src: nat)
      requires MatchOk(counter) && counter >= 3
      requires src == (outPos - dist) % RING && outPos + 3 <= RING && src + 3 <= RING
      modifies `outPos, `hist, out
      ensures MatchOk(counter - 3) && outPos == old(outPos) + 3 && old(hist) <= hist
    {
      hide Sound, Unread, TablesOk, On, CopyMatch;
      NextSource(src, outPos, dist, 1);
      NextSource(src, outPos, dist, 2);
      CopyStep(hist, dist, counter);
      CopyOne(src);
      CopyStep(hist, dist, counter - 1);
      CopyOne(src + 1);
      CopyStep(hist, dist, counter - 2);
      CopyOne(src + 2);
    }

    method CopyTail(src: nat)
      requires MatchOk(counter) && counter <= 2
      requires counter > 0 ==> src == (outPos - dist) % RING
      requires outPos + counter <= RING && src + counter <= RING
      modifies `outPos, `hist, out
      ensures Sound() && TablesOk() && On(AtSymbol(codeSize0, codeSize1), hist) && old(hist) <= hist
    {
      hide Sound, Unread, TablesOk, On;
      if counter > 0 {
        CopyOne(src);
        if counter > 1 {
          NextSource(src, outPos - 1, dist, 1);
          CopyOne(src + 1);
        }
      }
    }

    /** Head of the byte loop: while (counter--). */
    method StepMatchBytes()
      requires state.MatchBytes? && MatchOk(counter) && distFromStart % RING == |hist| % RING
      modifies `counter, `state
      ensures || (state.MatchFlush? && MatchOk(counter + 1) && counter == old(counter) - 1)
              || (state == LitSymbol(false) && LitSymbolOk())
    {
      hide Sound, Unread, TablesOk, On, HasCode;
      if counter == 0 {
        state := LitSymbol(false);
      } else {
        counter := counter - 1;
        state := MatchFlush;
      }
    }

    /** One byte of the loop, which may have to wait for room and resume in a later call. */
    method StepMatchFlush() returns (ok: bool)
      requires state.MatchFlush? && MatchOk(counter + 1) && distFromStart % RING == |hist| % RING
      modifies `outPos, `hist, out, `distFromStart, `state
      ensures MatchOk(if ok then counter else counter + 1) && distFromStart % RING == |hist| % RING
      ensures if ok then state.MatchBytes? else state.MatchFlush? && outPos == RING
      ensures old(hist) <= hist
    {
      hide Sound, Unread, TablesOk, On;
      Bounds();
      SameSlot();
      if outPos >= RING {
        return false;
      }
      SourceAgrees(distFromStart, outPos, dist);
      CopyOne((distFromStart - dist) % RING);
      SuccAgrees(distFromStart, |hist| - 1);
      distFromStart := distFromStart + 1;
      state := MatchBytes;
      return true;
    }

    // ---- trailer --------------------------------------------------------------

    method StepTrailer() returns (ok: bool)
      requires state.Trailer? && TrailerOk()
      modifies `inPos, `bitBuf, `numBits, `buf, `counter, `sum, `zAdler32, `state
      ensures if ok then
                || (state.Trailer? && TrailerOk() && |Unread()| < |old(Unread())|)
                || (state.Finished? && FinishedOk() && |Unread()| == |old(Unread())|)
              else state.Trailer? && TrailerOk() && WantsInput()
      ensures inPos >= old(inPos)
    {
      hide Resume, BitsOk, Unread, OutOk, CheckOk, Ends, FinishedOk;
      if counter == 4 {
        EndTrailer();
        ok := true;
      } else {
        ok := NextTrailerByte();
      }
    }

    method EndTrailer()
      requires state.Trailer? && TrailerOk() && counter == 4
      modifies `state
      ensures state.Finished? && FinishedOk()
    {
      hide Resume, BitsOk, Unread, OutOk, CheckOk, Ends, Byte;
      ChecksumDone(Frame(zlib, final), sum, Unread(), hist);
      SumRegister(sum);
      state := Finished;
    }

    /** One byte of the stored checksum. */
    method NextTrailerByte() returns (ok: bool)
      requires state.Trailer? && TrailerOk() && counter < 4
      modifies `inPos, `bitBuf, `numBits, `buf, `counter, `sum, `zAdler32
      ensures state.Trailer? && TrailerOk() && (ok ==> |Unread()| < |old(Unread())|) && (!ok ==> WantsInput())
      ensures inPos >= old(inPos)
    {
      hide Resume, BitsOk, Unread, OutOk, CheckOk, Ends, Byte;
      ChecksumStep(Frame(zlib, final), counter, sum, Unread(), hist);
      var s;
      ok, s := NextAlignedByte();
      if !ok {
        NothingLeft();
        return;
      }
      ShiftRegister(s);
      zAdler32 := (zAdler32 * 256 + s) % 0x1_0000_0000;
      sum := sum * 256 + s;
      counter := counter + 1;
    }

    lemma SumRegister(s: nat)
      requires s < 0x1_0000_0000
      ensures (s + 0x1_0000_0000) % 0x1_0000_0000 == s
    {
    }

    lemma ShiftRegister(s: byte)
      requires ChecksumOk() && counter < 4
      ensures var top := if counter == 0 then 256 else if counter == 1 then 65536
                         else if counter == 2 then 0x100_0000 else 0x1_0000_0000;
              sum * 256 + s < top
              && (zAdler32 * 256 + s) % 0x1_0000_0000 == (sum * 256 + s + top) % 0x1_0000_0000
    {
    }

    // ---- the coroutine ----------------------------------------------------------

    /** m_z_adler32 stays at its initial value until the trailer. */
    ghost predicate RegisterOk()
      reads `state, `zAdler32
    {
      state.Init? || state.Trailer? || state.Finished? || state.Broken? || zAdler32 == 1
    }

    /** What the code between two labels keeps and promises. */
    twostate predicate Moved(status: Status)
      reads this, out
    {
      && Inv() && RegisterOk()
      && base == old(base) && input == old(input) && called == old(called) && outStart == old(outStart)
      && checked == old(checked) && old(hist) <= hist && inPos >= old(inPos)
      && (status == Running ==> Down(old(Unread()), old(Rank())))
      && (status == NeedsMoreInput ==> WantsInput())
      && (status == HasMoreOutput ==> outPos == RING)
      && (status == StatusDone ==> state.Finished?)
      && (status == StatusFailed || old(state.Broken?) ==> state.Broken?)
      && (state.Broken? ==> status == StatusFailed || status == Running)
      && status != AdlerMismatch
    }

    /** Before the first block. */
    method StepContainer() returns (status: Status)
      requires Inv() && RegisterOk()
      requires state.Init? || state.ZlibCmf? || state.ZlibFlg?
      modifies this, out
      ensures Moved(status)
    {
      hide InitOk, ZlibCmfOk, ZlibFlgOk, BlockStartOk, FixedStartOk, StoredHeadOk, StoredBitsOk, StoredFlushOk,
           StoredCopyOk, TableSizesOk, ClLengthsOk, LenSymbolOk, LenRepeatOk, TablesStartOk, LitSymbolOk, LitFlushOk,
           LenExtraOk, DistSymbolOk, DistBitsOk, MatchOk, TrailerOk, FinishedOk, BrokenOk, Unread, WantsInput;
      if state.Init? {
        StepInit();
        status := Running;
      } else if state.ZlibCmf? {
        var ok := StepZlibCmf();
        status := if ok then Running else NeedsMoreInput;
      } else {
        var ok := StepZlibFlg();
        status := if ok then Running else NeedsMoreInput;
      }
    }

    /** Block headers and fixed or finished code tables. */
    method StepBlocks() returns (status: Status)
      requires Inv() && RegisterOk()
      requires state.BlockStart? || state.FixedStart? || state.TablesStart?
      modifies this, out
      ensures Moved(status)
    {
      hide InitOk, ZlibCmfOk, ZlibFlgOk, BlockStartOk, FixedStartOk, StoredHeadOk, StoredBitsOk, StoredFlushOk,
           StoredCopyOk, TableSizesOk, ClLengthsOk, LenSymbolOk, LenRepeatOk, TablesStartOk, LitSymbolOk, LitFlushOk,
           LenExtraOk, DistSymbolOk, DistBitsOk, MatchOk, TrailerOk, FinishedOk, BrokenOk, Unread, WantsInput;
      if state.BlockStart? {
        var ok := StepBlockStart();
        status := if ok then Running else NeedsMoreInput;
      } else if state.FixedStart? {
        StepFixedStart();
        status := Running;
      } else {
        StepTablesStart();
        status := Running;
      }
    }

    /** Stored blocks. */
    method StepStored() returns (status: Status)
      requires Inv() && RegisterOk()
      requires state.StoredHead? || state.StoredBits? || state.StoredFlush? || state.StoredCopy?
      modifies this, out
      ensures Moved(status)
    {
      hide InitOk, ZlibCmfOk, ZlibFlgOk, BlockStartOk, FixedStartOk, StoredHeadOk, StoredBitsOk, StoredFlushOk,
           StoredCopyOk, TableSizesOk, ClLengthsOk, LenSymbolOk, LenRepeatOk, TablesStartOk, LitSymbolOk, LitFlushOk,
           LenExtraOk, DistSymbolOk, DistBitsOk, MatchOk, TrailerOk, FinishedOk, BrokenOk, Unread, WantsInput;
      if state.StoredHead? {
        var ok := StepStoredHead();
        status := if ok then Running else NeedsMoreInput;
      } else if state.StoredBits? {
        StepStoredBits();
        status := Running;
      } else if state.StoredFlush? {
        var ok := StepStoredFlush();
        status := if ok then Running else HasMoreOutput;
      } else {
        status := StepStoredCopy();
      }
    }

    /** The header of a dynamic block. */
    method StepDynamic() returns (status: Status)
      requires Inv() && RegisterOk()
      requires state.TableSizes? || state.ClLengths? || state.LenSymbol? || state.LenRepeat?
      modifies this, out
      ensures Moved(status)
    {
      hide InitOk, ZlibCmfOk, ZlibFlgOk, BlockStartOk, FixedStartOk, StoredHeadOk, StoredBitsOk, StoredFlushOk,
           StoredCopyOk, TableSizesOk, ClLengthsOk, LenSymbolOk, LenRepeatOk, TablesStartOk, LitSymbolOk, LitFlushOk,
           LenExtraOk, DistSymbolOk, DistBitsOk, MatchOk, TrailerOk, FinishedOk, BrokenOk, Unread, WantsInput;
      if state.TableSizes? {
        var ok := StepTableSizes();
        status := if ok then Running else NeedsMoreInput;
      } else if state.ClLengths? {
        var ok := StepClLengths();
        status := if ok then Running else NeedsMoreInput;
      } else if state.LenSymbol? {
        var ok := StepLenSymbol();
        status := if ok then Running else NeedsMoreInput;
      } else {
        var ok := StepLenRepeat();
        status := if ok then Running else NeedsMoreInput;
      }
    }

    /** Literals, lengths and distances. */
    method StepSymbols() returns (status: Status)
      requires Inv() && RegisterOk()
      requires state.LitSymbol? || state.LitFlush? || state.LenExtra? || state.DistSymbol? || state.DistBits?
      modifies this, out
      ensures Moved(status)
    {
      hide InitOk, ZlibCmfOk, ZlibFlgOk, BlockStartOk, FixedStartOk, StoredHeadOk, StoredBitsOk, StoredFlushOk,
           StoredCopyOk, TableSizesOk, ClLengthsOk, LenSymbolOk, LenRepeatOk, TablesStartOk, LitSymbolOk, LitFlushOk,
           LenExtraOk, DistSymbolOk, DistBitsOk, MatchOk, TrailerOk, FinishedOk, BrokenOk, Unread, WantsInput;
      if state.LitSymbol? {
        var ok := StepLitSymbol();
        status := if ok then Running else NeedsMoreInput;
      } else if state.LitFlush? {
        var ok := StepLitFlush();
        status := if ok then Running else HasMoreOutput;
      } else if state.LenExtra? {
        var ok := StepLenExtra();
        status := if ok then Running else NeedsMoreInput;
      } else if state.DistSymbol? {
        var ok := StepDistSymbol();
        status := if ok then Running else NeedsMoreInput;
      } else {
        var ok := StepDistBits();
        status := if ok then Running else NeedsMoreInput;
      }
    }

    /** Copying a match. */
    method StepMatches() returns (status: Status)
      requires Inv() && RegisterOk()
      requires state.Match? || state.MatchBytes? || state.MatchFlush?
      modifies this, out
      ensures Moved(status)
    {
      hide InitOk, ZlibCmfOk, ZlibFlgOk, BlockStartOk, FixedStartOk, StoredHeadOk, StoredBitsOk, StoredFlushOk,
           StoredCopyOk, TableSizesOk, ClLengthsOk, LenSymbolOk, LenRepeatOk, TablesStartOk, LitSymbolOk, LitFlushOk,
           LenExtraOk, DistSymbolOk, DistBitsOk, MatchOk, TrailerOk, FinishedOk, BrokenOk, Unread, WantsInput;
      if state.Match? {
        StepMatch();
        status := Running;
      } else if state.MatchBytes? {
        StepMatchBytes();
        status := Running;
      } else {
        var ok := StepMatchFlush();
        status := if ok then Running else HasMoreOutput;
      }
    }

    /** After the last block; the final labels return for ever. */
    method StepEnd() returns (status: Status)
      requires Inv() && RegisterOk()
      requires state.Trailer? || state.Finished? || state.Broken?
      modifies this, out
      ensures Moved(status)
    {
      hide InitOk, ZlibCmfOk, ZlibFlgOk, BlockStartOk, FixedStartOk, StoredHeadOk, StoredBitsOk, StoredFlushOk,
           StoredCopyOk, TableSizesOk, ClLengthsOk, LenSymbolOk, LenRepeatOk, TablesStartOk, LitSymbolOk, LitFlushOk,
           LenExtraOk, DistSymbolOk, DistBitsOk, MatchOk, TrailerOk, FinishedOk, BrokenOk, Unread, WantsInput;
      if state.Trailer? {
        var ok := StepTrailer();
        status := if ok then Running else NeedsMoreInput;
      } else if state.Finished? {
        status := StatusDone;
      } else {
        status := StatusFailed;
      }
    }

    /** The code from the current label to the next one. */
    method Step() returns (status: Status)
      requires Inv() && RegisterOk()
      modifies this, out
      ensures Moved(status)
    {
      hide Inv, Unread, Rank, Down, WantsInput;
      match state
      case Init => status := StepContainer();
      case ZlibCmf => status := StepContainer();
      case ZlibFlg => status := StepContainer();
      case BlockStart => status := StepBlocks();
      case FixedStart => status := StepBlocks();
      case TablesStart => status := StepBlocks();
      case StoredHead => status := StepStored();
      case StoredBits => status := StepStored();
      case StoredFlush => status := StepStored();
      case StoredCopy => status := StepStored();
      case TableSizes => status := StepDynamic();
      case ClLengths => status := StepDynamic();
      case LenSymbol(_) => status := StepDynamic();
      case LenRepeat => status := StepDynamic();
      case LitSymbol(_) => status := StepSymbols();
      case LitFlush => status := StepSymbols();
      case LenExtra => status := StepSymbols();
      case DistSymbol(_) => status := StepSymbols();
      case DistBits => status := StepSymbols();
      case Match => status := StepMatches();
      case MatchBytes => status := StepMatches();
      case MatchFlush => status := StepMatches();
      case Trailer => status := StepEnd();
      case Finished => status := StepEnd();
      case Broken => status := StepEnd();
    }

    // ---- one call ---------------------------------------------------------------

    /** Stream bytes taken so far over all calls. */
    ghost function Position(): nat
      reads `base, `inPos
    {
      base + inPos
    }

    /** Between two calls the checksum register covers everything written. */
    ghost predicate Between()
      reads this, out
    {
      Inv() && RegisterOk() && (state.Broken? || checked == |hist|)
    }

    /** The variables saved between calls are as they were and the same bits lie ahead. */
    twostate predicate Kept()
      reads this, out
    {
      && Sound() && Unread() == old(Unread()) && base + inPos == old(base + inPos)
      && unchanged(`state, `numBits, `buf, `dist, `counter, `numExtra, `distFromStart, `zhdr0, `zAdler32, `final,
                   `rawHeader, `tableSizes, `lenCodes, `codeSize0, `codeSize1, `codeSize2, `lookUp0, `lookUp1, `lookUp2,
                   `tree0, `tree1, `tree2, `hist, `sum, `nodes0, `nodes1, `nodes2)
    }

    twostate lemma KeepContainer()
      requires old(Inv()) && Kept() && (state.Init? || state.ZlibCmf? || state.ZlibFlg?)
      ensures Inv()
    {
      hide Resume, Inflate, TableFor, HasCode, CopyMatch, Sound, Unread;
    }

    twostate lemma KeepBlocks()
      requires old(Inv()) && Kept() && (state.BlockStart? || state.FixedStart? || state.TablesStart?)
      ensures Inv()
    {
      hide Resume, Inflate, TableFor, HasCode, CopyMatch, Sound, Unread;
    }

    twostate lemma KeepStored()
      requires old(Inv()) && Kept() && (state.StoredHead? || state.StoredBits? || state.StoredFlush? || state.StoredCopy?)
      ensures Inv()
    {
      hide Resume, Inflate, TableFor, HasCode, CopyMatch, Sound, Unread;
    }

    twostate lemma KeepDynamic()
      requires old(Inv()) && Kept() && (state.TableSizes? || state.ClLengths? || state.LenSymbol? || state.LenRepeat?)
      ensures Inv()
    {
      hide Resume, Inflate, TableFor, HasCode, CopyMatch, Sound, Unread;
    }

    twostate lemma KeepSymbols()
      requires old(Inv()) && Kept() && (state.LitSymbol? || state.LitFlush? || state.LenExtra? || state.DistSymbol? || state.DistBits?)
      ensures Inv()
    {
      hide Resume, Inflate, TableFor, HasCode, CopyMatch, Sound, Unread;
    }

    twostate lemma KeepMatches()
      requires old(Inv()) && Kept() && (state.Match? || state.MatchBytes? || state.MatchFlush?)
      ensures Inv()
    {
      hide Resume, Inflate, TableFor, HasCode, CopyMatch, Sound, Unread;
    }

    twostate lemma KeepEnd()
      requires old(Inv()) && Kept() && (state.Trailer? || state.Finished? || state.Broken?)
      ensures Inv()
    {
      hide Resume, Inflate, TableFor, HasCode, CopyMatch, Sound, Unread;
    }

    twostate lemma KeepAll()
      requires old(Inv()) && Kept()
      ensures Inv()
    {
      hide Sound, Unread, Inv;
      match state
      case Init => KeepContainer();
      case ZlibCmf => KeepContainer();
      case ZlibFlg => KeepContainer();
      case BlockStart => KeepBlocks();
      case FixedStart => KeepBlocks();
      case TablesStart => KeepBlocks();
      case StoredHead => KeepStored();
      case StoredBits => KeepStored();
      case StoredFlush => KeepStored();
      case StoredCopy => KeepStored();
      case TableSizes => KeepDynamic();
      case ClLengths => KeepDynamic();
      case LenSymbol(_) => KeepDynamic();
      case LenRepeat => KeepDynamic();
      case LitSymbol(_) => KeepSymbols();
      case LitFlush => KeepSymbols();
      case LenExtra => KeepSymbols();
      case DistSymbol(_) => KeepSymbols();
      case DistBits => KeepSymbols();
      case Match => KeepMatches();
      case MatchBytes => KeepMatches();
      case MatchFlush => KeepMatches();
      case Trailer => KeepEnd();
      case Finished => KeepEnd();
      case Broken => KeepEnd();
    }

    /** A new call: the next piece of the stream and the place where its output goes. */
    method BeginCall(chunk: seq<byte>, outNext: nat)
      requires Between() && Position() + |chunk| <= |stream| && chunk == stream[Position()..Position() + |chunk|]
      requires outNext < RING && outNext == |hist| % RING
      modifies `base, `input, `inPos, `outStart, `outPos, `called
      ensures Inv() && RegisterOk() && input == chunk && inPos == 0 && base == old(Position())
      ensures outStart == outPos == outNext && called == |hist|
      ensures Unread() == old(Unread())
    {
      hide Sound, Unread, Inv;
      Begin(chunk, outNext);
      KeepAll();
    }

    lemma IsSound()
      requires Inv()
      ensures Sound()
    {
      hide Sound;
    }

    method Begin(chunk: seq<byte>, outNext: nat)
      requires Inv() && Position() + |chunk| <= |stream| && chunk == stream[Position()..Position() + |chunk|]
      requires outNext < RING && outNext == |hist| % RING
      modifies `base, `input, `inPos, `outStart, `outPos, `called
      ensures Sound() && base + inPos == old(base + inPos) && input == chunk && inPos == 0 && base == old(Position())
      ensures outStart == outPos == outNext && called == |hist| && Unread() == old(Unread())
    {
      hide OutOk, BitsOk, CheckOk, Inv;
      IsSound();
      BeginInput(chunk);
      BeginOutput(outNext);
    }

    method BeginInput(chunk: seq<byte>)
      requires BitsOk() && Position() + |chunk| <= |stream| && chunk == stream[Position()..Position() + |chunk|]
      modifies `base, `input, `inPos
      ensures BitsOk() && input == chunk && inPos == 0 && base == old(Position())
    {
      hide Value;
      base := base + inPos;
      inPos := 0;
      input := chunk;
    }

    method BeginOutput(outNext: nat)
      requires OutOk() && outNext < RING && outNext == |hist| % RING
      modifies `outStart, `outPos, `called
      ensures OutOk() && outStart == outPos == outNext && called == |hist|
    {
      outStart, outPos, called := outNext, outNext, |hist|;
    }

    /** The bytes of the current call lie in one piece in the ring. */
    lemma CallOutput()
      requires OutOk()
      ensures outStart <= outPos <= RING == out.Length
      ensures out[outStart..outPos] == hist[called..]
    {
      var written, recent := out[outStart..outPos], hist[called..];
      assert |written| == |recent|;
      forall i | 0 <= i < |recent|
        ensures written[i] == recent[i]
      {
        CallSlot(|hist|, outPos, |hist| - called - i);
        assert out[(called + i) % RING] == hist[called + i];
      }
    }

    /** The checksum update at common_exit. */
    method UpdateCheck()
      requires OutOk() && CheckOk() && checked == called
      modifies `checkAdler32, `checked
      ensures CheckOk() && checked == |hist|
    {
      CallOutput();
      assert hist == hist[..called] + hist[called..];
      if zlib || computeAdler {
        checkAdler32 := Adler32.Update(checkAdler32, out[outStart..outPos], hist[..called]);
      }
      checked := |hist|;
      assert hist[..checked] == hist;
    }

    lemma OnExtends(p: Point, h: seq<byte>)
      requires On(p, h) && (p.AtHeader? || p.AtFlags? ==> h == [])
      ensures Inflate(zlib, stream) != Undefined && h <= Inflate(zlib, stream).out
    {
      hide Resume, Inflate, Unread;
      InflatePrefix.ResumeExtends(Frame(zlib, final), p, Unread(), h);
    }

    /** Everything written so far is a prefix of what the pure decoder produces. */
    lemma HistoryIsPrefix()
      requires Inv()
      ensures Inflate(zlib, stream) != Undefined && hist <= Inflate(zlib, stream).out
    {
      hide Resume, Inflate, Unread, On, Sound, TableFor, HasCode, CopyMatch, SizesOk;
      match state
      case Init =>
      case ZlibCmf => OnExtends(AtHeader, []);
      case ZlibFlg => OnExtends(AtFlags(zhdr0), []);
      case BlockStart => OnExtends(AtBlock, hist);
      case FixedStart => OnExtends(AtSymbol(FixedLiterals(), FixedDistances()), hist);
      case StoredHead => OnExtends(AtStoredHeader(rawHeader[..counter]), hist);
      case StoredBits => OnExtends(AtStored(counter), hist);
      case StoredFlush => OnExtends(AtStored(counter - 1), hist + [dist]);
      case StoredCopy => OnExtends(AtStored(counter), hist);
      case TableSizes => OnExtends(AtSizes(tableSizes[..counter]), hist);
      case ClLengths =>
        OnExtends(AtClLengths(tableSizes[0], tableSizes[1], tableSizes[2], counter, codeSize2), hist);
      case LenSymbol(_) => OnExtends(AtLengths(tableSizes[0], tableSizes[1], codeSize2, lenCodes[..counter]), hist);
      case LenRepeat => OnExtends(AtRepeat(tableSizes[0], tableSizes[1], codeSize2, lenCodes[..counter], dist), hist);
      case TablesStart =>
        InflatePrefix.TablesExtend(Frame(zlib, final), codeSize0, codeSize1, Unread(), hist);
      case LitSymbol(_) => OnExtends(AtSymbol(codeSize0, codeSize1), hist);
      case LitFlush => OnExtends(AtSymbol(codeSize0, codeSize1), hist + [counter]);
      case LenExtra => OnExtends(AtLength(codeSize0, codeSize1, counter, numExtra), hist);
      case DistSymbol(_) => OnExtends(AtDistance(codeSize0, codeSize1, counter), hist);
      case DistBits => OnExtends(AtDistExtra(codeSize0, codeSize1, counter, dist, numExtra), hist);
      case Match => OnExtends(AtSymbol(codeSize0, codeSize1), CopyMatch(hist, dist, counter));
      case MatchBytes => OnExtends(AtSymbol(codeSize0, codeSize1), CopyMatch(hist, dist, counter));
      case MatchFlush => OnExtends(AtSymbol(codeSize0, codeSize1), CopyMatch(hist, dist, counter + 1));
      case Trailer => OnExtends(AtChecksum(counter, sum), hist);
      case Finished => OnExtends(AtEnd(!zlib || zAdler32 == Adler32.Adler(hist)), hist);
      case Broken => OnExtends(AtFailure, hist);
    }

    /** One call of tinfl_decompress. */
    method Decompress(chunk: seq<byte>, outNext: nat) returns (status: Status, consumed: nat, produced: nat)
      requires Between() && Position() + |chunk| <= |stream| && chunk == stream[Position()..Position() + |chunk|]
      requires outNext < RING && outNext == |hist| % RING
      modifies this, out
      ensures Between()
      ensures consumed <= |chunk| && Position() == old(Position()) + consumed
      ensures outNext + produced <= RING == out.Length
      ensures hist == old(hist) + out[outNext..outNext + produced]
      ensures Inflate(zlib, stream) != Undefined && hist <= Inflate(zlib, stream).out
      ensures status == NeedsMoreInput ==>
        consumed == |chunk| && (Position() == |stream| ==> Inflate(zlib, stream) == Starved(hist))
      ensures status == HasMoreOutput ==> outNext + produced == RING
      ensures status == StatusDone ==> Inflate(zlib, stream) == Outcome.Done(hist)
      ensures status == AdlerMismatch ==> Inflate(zlib, stream) == Mismatch(hist)
      ensures status == StatusFailed ==> Inflate(zlib, stream) == Outcome.Failed(hist)
      ensures status != Running
    {
      hide Inv, Inflate, Sound, Rank, Unread, OutOk, BitsOk, CheckOk, Resume;
      BeginCall(chunk, outNext);
      status := Running;
      while status == Running
        invariant Inv() && RegisterOk()
        invariant base == old(Position()) && input == chunk && inPos >= 0
        invariant outStart == outNext && called == |old(hist)| && old(hist) <= hist
        invariant state.Broken? || checked == called
        invariant status == NeedsMoreInput ==> WantsInput()
        invariant status == HasMoreOutput ==> outPos == RING
        invariant status == StatusDone ==> state.Finished?
        invariant status == StatusFailed ==> state.Broken?
        invariant state.Broken? ==> status == StatusFailed || status == Running
        invariant status != AdlerMismatch
        decreases status == Running, |Unread()|, Rank()
      {
        status := Step();
      }
      status, consumed, produced := CommonExit(status);
      HistoryIsPrefix();
    }

    lemma FinishedMeans()
      requires FinishedOk()
      ensures Inflate(zlib, stream) ==
        if !zlib || zAdler32 == Adler32.Adler(hist) then Outcome.Done(hist) else Mismatch(hist)
    {
      hide Inflate;
    }

    lemma BrokenMeans()
      requires BrokenOk()
      ensures Inflate(zlib, stream) == Outcome.Failed(hist)
    {
      hide Inflate;
    }

    lemma StarvedMeans()
      requires WantsInput() && base + |input| == |stream|
      ensures Inflate(zlib, stream) == Starved(hist)
    {
      hide Inflate;
    }

    /** common_exit: sizes used, checksum over this call's output, final comparison. */
    method CommonExit(status0: Status) returns (status: Status, consumed: nat, produced: nat)
      requires Inv() && RegisterOk() && status0 != Running && status0 != AdlerMismatch
      requires state.Broken? || checked == called
      requires state.Broken? ==> status0 == StatusFailed
      requires status0 == NeedsMoreInput ==> WantsInput()
      requires status0 == HasMoreOutput ==> outPos == RING
      requires status0 == StatusDone ==> state.Finished?
      requires status0 == StatusFailed ==> state.Broken?
      modifies `checkAdler32, `checked
      ensures Between()
      ensures consumed == inPos <= |input| && outStart + produced == outPos <= RING == out.Length
      ensures hist[called..] == out[outStart..outStart + produced] && called <= |hist|
      ensures status == NeedsMoreInput ==>
        consumed == |input| && (base + inPos == |stream| ==> Inflate(zlib, stream) == Starved(hist))
      ensures status == HasMoreOutput ==> outStart + produced == RING
      ensures status == StatusDone ==> Inflate(zlib, stream) == Outcome.Done(hist)
      ensures status == AdlerMismatch ==> Inflate(zlib, stream) == Mismatch(hist)
      ensures status == StatusFailed ==> Inflate(zlib, stream) == Outcome.Failed(hist)
      ensures status != Running
    {
      hide Inflate, Sound, Rank, Unread, OutOk, BitsOk, CheckOk, Resume, On, Inv, FinishedOk, BrokenOk, WantsInput;
      status := status0;
      IsSound();
      Bounds();
      SoundParts();
      CallOutput();
      consumed, produced := inPos, outPos - outStart;
      Verdict();
      if status == NeedsMoreInput {
        WantsAll();
        if base + |input| == |stream| {
          StarvedMeans();
        }
      }
      if status != StatusFailed {
        UpdateCheck();
        SoundAgain();
        KeepAll();
        if status == StatusDone && zlib && checkAdler32 != zAdler32 {
          status := AdlerMismatch;
        }
      }
    }

    lemma WantsAll()
      requires WantsInput()
      ensures inPos == |input|
    {
    }

    lemma SoundParts()
      requires Sound()
      ensures BitsOk() && OutOk() && CheckOk()
    {
    }

    lemma SoundAgain()
      requires BitsOk() && OutOk() && CheckOk()
      ensures Sound()
      ensures zlib && checked == |hist| ==> checkAdler32 == Adler32.Adler(hist)
    {
      assert hist[..|hist|] == hist;
    }

    /** What the two final labels say about the whole stream. */
    lemma Verdict()
      requires Inv()
      ensures state.Finished? ==>
        Inflate(zlib, stream) == if !zlib || zAdler32 == Adler32.Adler(hist) then Outcome.Done(hist) else Mismatch(hist)
      ensures state.Broken? ==> Inflate(zlib, stream) == Outcome.Failed(hist)
    {
      hide Inflate, FinishedOk, BrokenOk;
      if state.Finished? {
        FinishedMeans();
      } else if state.Broken? {
        BrokenMeans();
      }
    }
  }

  method FillLengths(codes: seq<CodeLength>, at: nat, v: CodeLength, n: nat) returns (r: seq<CodeLength>)
    requires at + n <= |codes|
    ensures |r| == |codes| && r[..at + n] == codes[..at] + Repeat(v, n)
  {
    r := codes;
    for i := 0 to n
      invariant |r| == |codes| && r[..at + i] == codes[..at] + Repeat(v, i)
    {
      assert Repeat(v, i + 1) == Repeat(v, i) + [v];
      r := r[at + i := v];
      assert r[..at + i + 1] == r[..at + i] + [v];
    }
  }
}
