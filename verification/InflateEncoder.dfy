/**
 An encoder for everything a DEFLATE stream may hold: literals and matches, code length lists
 with their runs, blocks of all three kinds, and the zlib wrapper, for every choice of codes an
 encoder may make; and what these parts mean as bytes.
 */
module InflateEncoder {
  import opened Bits
  import opened Huffman
  import opened InflateSpec
  import opened Sequences
  import Adler32

  const MAX_STORED: nat := 65535

  const MIN_MATCH: nat := 3

  const MAX_MATCH: nat := 258

  const CL_CODES: nat := 19

  datatype Token = Literal(b: byte) | Match(len: nat, dist: nat)

  /** The elements of a code length list: one length, or a run of the last one or of zeros. */
  datatype LengthToken = Plain(v: CodeLength) | Previous(n: nat) | FewZeros(n: nat) | ManyZeros(n: nat)

  datatype Block =
    | StoredData(data: seq<byte>)
    | FixedCodes(tokens: seq<Token>)
    | DynamicCodes(nlit: nat, ndist: nat, ncl: nat, cl: CodeLengths, lens: seq<LengthToken>, tokens: seq<Token>)

  // ---- bits into bytes -----------------------------------------------------------------------

  /** Packs bits into bytes, first bit lowest, the last byte filled up with zeros. */
  function Pack(bits: seq<bool>): (bytes: seq<byte>)
    ensures |bytes| == (|bits| + 7) / 8
  {
    if bits == [] then []
    else if |bits| < 8 then [ByteOf(bits + Zeros(8 - |bits|))]
    else [ByteOf(bits[..8])] + Pack(bits[8..])
  }

  function ByteOf(bits: seq<bool>): byte
    requires |bits| == 8
  {
    assert Pow2(8) == 256;
    Value(bits)
  }

  // ---- literals and matches (section 3.2.5 of RFC 1951) -----------------------------------------

  /** The last of the classes up to i whose lengths do not start above this one. */
  function LengthClass(len: nat, i: nat): (c: nat)
    requires i < 29 && len >= MIN_MATCH
    ensures c <= i && LengthBase(c) <= len && (c < i ==> len < LengthBase(c + 1))
  {
    if LengthBase(i) <= len then i else LengthClass(len, i - 1)
  }

  function DistClass(d: nat, i: nat): (c: nat)
    requires i < 30 && d >= 1
    ensures c <= i && DistBase(c) <= d && (c < i ==> d < DistBase(c + 1))
  {
    if DistBase(i) <= d then i else DistClass(d, i - 1)
  }

  /** The codes have the symbols of a token. */
  predicate Encodable(lit: CodeLengths, dist: CodeLengths, t: Token) {
    match t
    case Literal(b) => Used(lit, b)
    case Match(len, d) =>
      && MIN_MATCH <= len <= MAX_MATCH && 1 <= d <= WINDOW
      && Used(lit, 257 + LengthClass(len, 28)) && Used(dist, DistClass(d, 29))
  }

  function EncodeToken(lit: CodeLengths, dist: CodeLengths, t: Token): seq<bool>
    requires Encodable(lit, dist, t)
  {
    match t
    case Literal(b) => Code(lit, b)
    case Match(len, d) => EncodeLength(lit, LengthClass(len, 28), len) + EncodeDistance(dist, DistClass(d, 29), d)
  }

  function EncodeLength(lit: CodeLengths, c: nat, len: nat): seq<bool>
    requires c < 29 && Used(lit, 257 + c) && LengthBase(c) <= len
  {
    Code(lit, 257 + c) + LowBits(len - LengthBase(c), LengthExtra(c))
  }

  function EncodeDistance(dist: CodeLengths, c: nat, d: nat): seq<bool>
    requires c < 30 && Used(dist, c) && DistBase(c) <= d
  {
    Code(dist, c) + LowBits(d - DistBase(c), DistExtra(c))
  }

  function EncodeTokens(lit: CodeLengths, dist: CodeLengths, ts: seq<Token>): seq<bool>
    requires forall t | t in ts :: Encodable(lit, dist, t)
  {
    if ts == [] then [] else EncodeToken(lit, dist, ts[0]) + EncodeTokens(lit, dist, ts[1..])
  }

  /** A match starts within the n bytes there are. */
  predicate InReach(t: Token, n: nat) {
    t.Match? ==> 1 <= t.dist <= n
  }

  function Size(t: Token): nat {
    if t.Literal? then 1 else t.len
  }

  predicate AllInReach(ts: seq<Token>, n: nat) {
    ts == [] || (InReach(ts[0], n) && AllInReach(ts[1..], n + Size(ts[0])))
  }

  /** What is there after a token. */
  function Meant(hist: seq<byte>, t: Token): (r: seq<byte>)
    requires InReach(t, |hist|)
    ensures |r| == |hist| + Size(t)
  {
    match t
    case Literal(b) => hist + [b]
    case Match(len, d) => CopyMatch(hist, d, len)
  }

  function AllMeant(hist: seq<byte>, ts: seq<Token>): seq<byte>
    requires AllInReach(ts, |hist|)
    decreases |ts|
  {
    if ts == [] then hist else AllMeant(Meant(hist, ts[0]), ts[1..])
  }

  /** A match repeats what is its distance before, itself included. */
  lemma {:induction false} MatchRepeats(hist: seq<byte>, d: nat, n: nat)
    requires 1 <= d <= |hist|
    ensures var r := CopyMatch(hist, d, n);
            hist <= r && forall i | |hist| <= i < |hist| + n :: r[i] == r[i - d]
    decreases n
  {
    if n > 0 {
      var more := hist + [hist[|hist| - d]];
      MatchRepeats(more, d, n - 1);
      var r := CopyMatch(hist, d, n);
      assert r[..|more|] == more;
      assert r[|hist|] == more[|hist|] && r[|hist| - d] == more[|hist| - d];
    }
  }

  /** A block body: tokens and the end mark. */
  function EncodeBody(lit: CodeLengths, dist: CodeLengths, ts: seq<Token>): seq<bool>
    requires (forall t | t in ts :: Encodable(lit, dist, t)) && Used(lit, 256)
  {
    EncodeTokens(lit, dist, ts) + Code(lit, 256)
  }

  // ---- code length lists (section 3.2.7) --------------------------------------------------------

  function RunSymbol(t: LengthToken): nat {
    match t
    case Plain(v) => v
    case Previous(_) => 16
    case FewZeros(_) => 17
    case ManyZeros(_) => 18
  }

  /** A run that has a symbol with enough extra bits. */
  predicate Proper(t: LengthToken) {
    match t
    case Plain(_) => true
    case Previous(n) => 3 <= n <= 6
    case FewZeros(n) => 3 <= n <= 10
    case ManyZeros(n) => 11 <= n <= 138
  }

  predicate AllProper(cl: CodeLengths, ts: seq<LengthToken>) {
    forall t | t in ts :: Proper(t) && Used(cl, RunSymbol(t))
  }

  /** A list does not start with a repetition. */
  predicate Startable(acc: CodeLengths, ts: seq<LengthToken>) {
    acc == [] && ts != [] ==> !ts[0].Previous?
  }

  function Listed(acc: CodeLengths, t: LengthToken): (r: CodeLengths)
    requires Proper(t) && (acc == [] ==> !t.Previous?)
    ensures |r| > |acc|
  {
    match t
    case Plain(v) => acc + [v]
    case Previous(n) => acc + Repeat(acc[|acc| - 1], n)
    case FewZeros(n) => acc + Repeat(0, n)
    case ManyZeros(n) => acc + Repeat(0, n)
  }

  function AllListed(acc: CodeLengths, ts: seq<LengthToken>): (r: CodeLengths)
    requires (forall t | t in ts :: Proper(t)) && Startable(acc, ts)
    ensures |r| >= |acc| + |ts|
    decreases |ts|
  {
    if ts == [] then acc else AllListed(Listed(acc, ts[0]), ts[1..])
  }

  function EncodeRun(cl: CodeLengths, t: LengthToken): seq<bool>
    requires Proper(t) && Used(cl, RunSymbol(t))
  {
    match t
    case Plain(v) => Code(cl, v)
    case Previous(n) => Code(cl, 16) + LowBits(n - 3, 2)
    case FewZeros(n) => Code(cl, 17) + LowBits(n - 3, 3)
    case ManyZeros(n) => Code(cl, 18) + LowBits(n - 11, 7)
  }

  function EncodeList(cl: CodeLengths, ts: seq<LengthToken>): seq<bool>
    requires AllProper(cl, ts)
  {
    if ts == [] then [] else EncodeRun(cl, ts[0]) + EncodeList(cl, ts[1..])
  }

  /** The lengths of the code length code, in their own order and as far as they are sent. */
  function EncodeCl(cl: CodeLengths, k: nat, ncl: nat): seq<bool>
    requires |cl| == CL_CODES && k <= ncl <= CL_CODES
    decreases ncl - k
  {
    if k == ncl then [] else LowBits(cl[ClSlot(k)], 3) + EncodeCl(cl, k + 1, ncl)
  }

  const CL_PLACE: seq<nat> := [3, 17, 15, 13, 11, 9, 7, 5, 4, 6, 8, 10, 12, 14, 16, 18, 0, 1, 2]

  /** When the length of a symbol is sent. */
  function ClPlace(i: nat): (k: nat)
    requires i < CL_CODES
    ensures k < CL_CODES && ClSlot(k) == i
  {
    CL_PLACE[i]
  }

  /** What is not sent is zero. */
  predicate ClSent(cl: CodeLengths, ncl: nat) {
    && |cl| == CL_CODES && 4 <= ncl <= CL_CODES
    && (forall i | 0 <= i < CL_CODES :: cl[i] < 8)
    && (forall i | 0 <= i < CL_CODES :: ClPlace(i) >= ncl ==> cl[i] == 0)
  }

  function EncodeSizes(nlit: nat, ndist: nat, ncl: nat): seq<bool>
    requires nlit >= 257 && ndist >= 1 && ncl >= 4
  {
    LowBits(nlit - 257, 5) + (LowBits(ndist - 1, 5) + LowBits(ncl - 4, 4))
  }

  /** The tables of a dynamic block as its header gives them. */
  predicate TablesSent(b: Block) {
    && b.DynamicCodes?
    && 257 <= b.nlit <= 288 && 1 <= b.ndist <= 32 && ClSent(b.cl, b.ncl) && Complete(b.cl)
    && AllProper(b.cl, b.lens) && Startable([], b.lens)
    && |AllListed([], b.lens)| == b.nlit + b.ndist
    && Complete(LitOf(b)) && Complete(DistOf(b))
  }

  function LitOf(b: Block): CodeLengths
    requires b.DynamicCodes? && (forall t | t in b.lens :: Proper(t)) && Startable([], b.lens)
    requires |AllListed([], b.lens)| == b.nlit + b.ndist
  {
    AllListed([], b.lens)[..b.nlit]
  }

  function DistOf(b: Block): CodeLengths
    requires b.DynamicCodes? && (forall t | t in b.lens :: Proper(t)) && Startable([], b.lens)
    requires |AllListed([], b.lens)| == b.nlit + b.ndist
  {
    AllListed([], b.lens)[b.nlit..]
  }

  function EncodeTables(b: Block): seq<bool>
    requires TablesSent(b)
  {
    EncodeSizes(b.nlit, b.ndist, b.ncl) + (EncodeCl(b.cl, 0, b.ncl) + EncodeList(b.cl, b.lens))
  }

  // ---- blocks (section 3.2.3) ---------------------------------------------------------------------

  predicate TokensCoded(lit: CodeLengths, dist: CodeLengths, ts: seq<Token>) {
    Used(lit, 256) && forall t | t in ts :: Encodable(lit, dist, t)
  }

  /** A block that can be written down. */
  predicate Coded(b: Block) {
    match b
    case StoredData(data) => |data| <= MAX_STORED
    case FixedCodes(ts) => TokensCoded(FixedLiterals(), FixedDistances(), ts)
    case DynamicCodes(_, _, _, _, _, ts) => TablesSent(b) && TokensCoded(LitOf(b), DistOf(b), ts)
  }

  predicate BlockInReach(b: Block, n: nat) {
    b.StoredData? || AllInReach(b.tokens, n)
  }

  /** What is there after a block. */
  function BlockMeant(hist: seq<byte>, b: Block): seq<byte>
    requires BlockInReach(b, |hist|)
  {
    if b.StoredData? then hist + b.data else AllMeant(hist, b.tokens)
  }

  /** The zeros from a bit position to the next byte boundary. */
  function Gap(pos: nat): (n: nat)
    ensures n < 8 && (pos + n) % 8 == 0
  {
    (8 - pos % 8) % 8
  }

  /** LEN and NLEN of a stored block, and its data. */
  function StoredBytes(data: seq<byte>): seq<byte>
    requires |data| <= MAX_STORED
  {
    var n := |data|;
    [n % 256, n / 256, 255 - n % 256, 255 - n / 256] + data
  }

  /** A block at a bit position of the stream. */
  function EncodeBlock(b: Block, last: bool, pos: nat): seq<bool>
    requires Coded(b)
  {
    match b
    case StoredData(data) => [last, false, false] + (Zeros(Gap(pos + 3)) + StreamBits(StoredBytes(data)))
    case FixedCodes(ts) => [last, true, false] + EncodeBody(FixedLiterals(), FixedDistances(), ts)
    case DynamicCodes(_, _, _, _, _, ts) => [last, false, true] + (EncodeTables(b) + EncodeBody(LitOf(b), DistOf(b), ts))
  }

  // ---- whole streams ---------------------------------------------------------------------------------

  predicate AllCoded(bs: seq<Block>) {
    bs != [] && forall b | b in bs :: Coded(b)
  }

  predicate BlocksInReach(bs: seq<Block>, hist: seq<byte>)
    decreases |bs|
  {
    bs == [] || (BlockInReach(bs[0], |hist|) && BlocksInReach(bs[1..], BlockMeant(hist, bs[0])))
  }

  /** What a list of blocks means, behind what is there. */
  function Meaning(hist: seq<byte>, bs: seq<Block>): seq<byte>
    requires BlocksInReach(bs, hist)
    decreases |bs|
  {
    if bs == [] then hist else Meaning(BlockMeant(hist, bs[0]), bs[1..])
  }

  function EncodeBlocks(bs: seq<Block>, pos: nat): seq<bool>
    requires AllCoded(bs)
    decreases |bs|
  {
    var first := EncodeBlock(bs[0], |bs| == 1, pos);
    if |bs| == 1 then first else first + EncodeBlocks(bs[1..], pos + |first|)
  }

  function BigEndian(v: nat): (bytes: seq<byte>)
    requires v < 0x1_0000_0000
    ensures |bytes| == 4
  {
    [v / 0x100_0000, v / 0x1_0000 % 256, v / 256 % 256, v % 256]
  }

  /** A zlib stream: any header that is allowed, the blocks, and the checksum. */
  function ZlibStream(cmf: byte, flg: byte, bs: seq<Block>): seq<byte>
    requires AllCoded(bs) && BlocksInReach(bs, [])
  {
    [cmf] + ([flg] + (Pack(EncodeBlocks(bs, 0)) + BigEndian(Adler32.Adler(Meaning([], bs)))))
  }
}
