/**
 The Adler-32 checksum of section 8.2 of RFC 1950 and the deferred-modulo update that tinfl
 runs over the bytes of each call.
 */
module Adler32 {
  import opened Bits

  const ADLER_MOD: nat := 65521
  const NMAX: nat := 5552

  type uint32 = x: int | 0 <= x < 0x1_0000_0000

  datatype Sums = Sums(s1: nat, s2: nat)

  /** The two sums, reduced after every byte. */
  function SumsOf(data: seq<byte>): (s: Sums)
    ensures s.s1 < ADLER_MOD && s.s2 < ADLER_MOD
  {
    if data == [] then Sums(1, 0)
    else
      var p := SumsOf(data[..|data| - 1]);
      var s1 := (p.s1 + data[|data| - 1]) % ADLER_MOD;
      Sums(s1, (p.s2 + s1) % ADLER_MOD)
  }

  function Adler(data: seq<byte>): (a: nat)
    ensures a < 0x1_0000_0000
  {
    SumsOf(data).s2 * 65536 + SumsOf(data).s1
  }

  // ---- the sums in numbers ------------------------------------------------------------------

  /** The sum of all bytes. */
  function Total(data: seq<byte>): nat {
    if data == [] then 0 else data[0] as nat + Total(data[1..])
  }

  /** Of n bytes the first one n times, the second one n - 1 times and so on, the last one once. */
  function Weighted(data: seq<byte>): nat {
    if data == [] then 0 else Times(|data|, data[0]) + Weighted(data[1..])
  }

  function Times(n: nat, c: nat): nat {
    n * c
  }

  lemma {:induction false} OneByteMore(data: seq<byte>, c: byte)
    ensures Total(data + [c]) == Total(data) + c
    ensures Weighted(data + [c]) == Weighted(data) + Total(data) + c
  {
    hide Times;
    if data == [] {
      assert data + [c] == [c] && [c][1..] == [];
      TimesMore(0, c);
    } else {
      assert (data + [c])[1..] == data[1..] + [c];
      OneByteMore(data[1..], c);
      TimesMore(|data|, data[0]);
    }
  }

  lemma TimesMore(n: nat, c: nat)
    ensures Times(n + 1, c) == Times(n, c) + c && Times(0, c) == 0
  {
  }

  lemma {:induction false} SumsInNumbers(data: seq<byte>)
    ensures SumsOf(data) == Sums((1 + Total(data)) % 65521, (|data| + Weighted(data)) % 65521)
  {
    hide Total, Weighted, SumsOf;
    if data == [] {
      NothingSums();
    } else {
      var before, c := data[..|data| - 1], data[|data| - 1];
      assert data == before + [c];
      SumsInNumbers(before);
      SumsStep(before, c);
      OneByteMore(before, c);
      SumsAdd(1 + Total(before), |before| + Weighted(before), c);
    }
  }

  /**
   Section 8.2 of RFC 1950 in numbers: the low half is one plus the sum of the bytes, the high half
   the sum of all values the low half takes, both modulo 65521.
   */
  lemma AdlerInNumbers(data: seq<byte>)
    ensures Adler(data) == (|data| + Weighted(data)) % 65521 * 65536 + (1 + Total(data)) % 65521
  {
    hide Total, Weighted, SumsOf;
    SumsInNumbers(data);
  }

  lemma NothingSums()
    ensures SumsOf([]) == Sums(1, 0) && Total([]) == 0 && Weighted([]) == 0
  {
  }

  // ---- the update ------------------------------------------------------------------------------

  /** Largest possible s2 after n bytes without reduction. */
  function Bound(n: nat): nat {
    if n == 0 then 65520 else Bound(n - 1) + 65520 + 255 * n
  }

  lemma {:induction false} BoundClosed(n: nat)
    ensures 2 * Bound(n) == 131040 * (n + 1) + 255 * (n * (n + 1))
  {
    if n != 0 {
      BoundClosed(n - 1);
      assert n * (n + 1) == (n - 1) * n + 2 * n;
    }
  }

  lemma BoundMonotone(m: nat, n: nat)
    requires m <= n
    ensures Bound(m) <= Bound(n)
  {
    if m < n {
      BoundMonotone(m, n - 1);
    }
  }

  /** A whole block of 5552 bytes fits 32 bits unreduced. */
  lemma BlockFits(n: nat)
    requires n <= NMAX
    ensures Bound(n) < 0x1_0000_0000
  {
    BoundMonotone(n, NMAX);
    BoundClosed(NMAX);
  }

  /** The registers hold the sums of data up to multiples of 65521, n bytes after a reduction. */
  ghost predicate Deferred(s1: int, s2: int, data: seq<byte>, n: nat) {
    && 0 <= s1 <= 65520 + 255 * n && 0 <= s2 <= Bound(n)
    && s1 % ADLER_MOD == SumsOf(data).s1 && s2 % ADLER_MOD == SumsOf(data).s2
  }

  lemma ModSum(a: nat, b: nat, m: nat)
    requires m > 0
    ensures (a % m + b) % m == (a + b) % m
    ensures (b + a % m) % m == (a + b) % m
  {
    var q, r := (a % m + b) / m, (a % m + b) % m;
    assert a == m * (a / m) + a % m && a % m + b == m * q + r;
    assert m * (a / m + q) == m * (a / m) + m * q;
    DivModUnique(a + b, m, a / m + q, r);
  }

  /** s1 += c, s2 += s1. */
  method Accumulate(s1: uint32, s2: uint32, c: byte, ghost data: seq<byte>, ghost n: nat) returns (t1: uint32, t2: uint32)
    requires Deferred(s1, s2, data, n) && n < NMAX
    ensures Deferred(t1, t2, data + [c], n + 1)
  {
    hide SumsOf;
    BlockFits(n + 1);
    BoundMonotone(0, n);
    SumsStep(data, c);
    SumsAdd(s1, s2, c);
    t1 := s1 + c;
    t2 := s2 + t1;
  }

  lemma SumsStep(data: seq<byte>, c: byte)
    ensures var p, q := SumsOf(data), SumsOf(data + [c]);
            q.s1 == (p.s1 + c) % ADLER_MOD && q.s2 == (p.s2 + q.s1) % ADLER_MOD
  {
    assert (data + [c])[..|data|] == data;
  }

  /** Adding a byte to both sums, reduced or not. */
  lemma SumsAdd(s1: nat, s2: nat, c: nat)
    ensures (s1 + c) % ADLER_MOD == (s1 % ADLER_MOD + c) % ADLER_MOD
    ensures (s2 + (s1 + c)) % ADLER_MOD == (s2 % ADLER_MOD + (s1 % ADLER_MOD + c) % ADLER_MOD) % ADLER_MOD
  {
    ModSum(s1, c, ADLER_MOD);
    ModSum(s2, s1 + c, ADLER_MOD);
    ModSum(s1 + c, s2 % ADLER_MOD, ADLER_MOD);
  }

  lemma Reduced(s1: int, s2: int, data: seq<byte>, n: nat)
    requires Deferred(s1, s2, data, n)
    ensures Deferred(s1 % ADLER_MOD, s2 % ADLER_MOD, data, 0)
  {
  }

  /** One block: eight bytes at a time, then the rest. */
  method AddBlock(s1: uint32, s2: uint32, block: seq<byte>, ghost before: seq<byte>) returns (t1: uint32, t2: uint32)
    requires Deferred(s1, s2, before, 0) && |block| <= NMAX
    ensures Deferred(t1, t2, before + block, |block|)
  {
    t1, t2 := s1, s2;
    var i := 0;
    assert before + block[..0] == before;
    while i + 7 < |block|
      invariant 0 <= i <= |block|
      invariant Deferred(t1, t2, before + block[..i], i)
      decreases |block| - i
    {
      ghost var d := before + block[..i];
      t1, t2 := AddEight(t1, t2, block[i..i + 8], d, i);
      assert d + block[i..i + 8] == before + block[..i + 8];
      i := i + 8;
    }
    while i < |block|
      invariant 0 <= i <= |block|
      invariant Deferred(t1, t2, before + block[..i], i)
    {
      ghost var d := before + block[..i];
      t1, t2 := Accumulate(t1, t2, block[i], d, i);
      assert d + [block[i]] == before + block[..i + 1];
      i := i + 1;
    }
    assert block[..i] == block;
  }

  method AddEight(s1: uint32, s2: uint32, p: seq<byte>, ghost d: seq<byte>, ghost n: nat) returns (t1: uint32, t2: uint32)
    requires Deferred(s1, s2, d, n) && n + 8 <= NMAX && |p| == 8
    ensures Deferred(t1, t2, d + p, n + 8)
  {
    hide Deferred;
    assert d + p == d + [p[0]] + [p[1]] + [p[2]] + [p[3]] + [p[4]] + [p[5]] + [p[6]] + [p[7]];
    t1, t2 := Accumulate(s1, s2, p[0], d, n);
    t1, t2 := Accumulate(t1, t2, p[1], d + [p[0]], n + 1);
    t1, t2 := Accumulate(t1, t2, p[2], d + [p[0]] + [p[1]], n + 2);
    t1, t2 := Accumulate(t1, t2, p[3], d + [p[0]] + [p[1]] + [p[2]], n + 3);
    t1, t2 := Accumulate(t1, t2, p[4], d + [p[0]] + [p[1]] + [p[2]] + [p[3]], n + 4);
    t1, t2 := Accumulate(t1, t2, p[5], d + [p[0]] + [p[1]] + [p[2]] + [p[3]] + [p[4]], n + 5);
    t1, t2 := Accumulate(t1, t2, p[6], d + [p[0]] + [p[1]] + [p[2]] + [p[3]] + [p[4]] + [p[5]], n + 6);
    t1, t2 := Accumulate(t1, t2, p[7], d + [p[0]] + [p[1]] + [p[2]] + [p[3]] + [p[4]] + [p[5]] + [p[6]], n + 7);
  }

  method Unpack(check: uint32, ghost data: seq<byte>) returns (s1: uint32, s2: uint32)
    requires check == Adler(data)
    ensures Deferred(s1, s2, data, 0)
  {
    DivModUnique(check, 65536, SumsOf(data).s2, SumsOf(data).s1);
    s1, s2 := check % 65536, check / 65536;
  }

  method Pack(s1: uint32, s2: uint32, ghost data: seq<byte>) returns (check: uint32)
    requires Deferred(s1, s2, data, 0)
    ensures check == Adler(data)
  {
    check := s2 * 65536 + s1;
  }

  /**
   The update at the end of a tinfl call: however the output was split into calls, the
   register is the Adler-32 of everything produced so far.
   */
  method Update(check: uint32, data: seq<byte>, ghost before: seq<byte>) returns (check': uint32)
    requires check == Adler(before)
    ensures check' == Adler(before + data)
  {
    hide Deferred;
    var s1: uint32, s2: uint32 := Unpack(check, before);
    var bufLen := |data|;
    var blockLen := bufLen % NMAX;
    ghost var q := bufLen / NMAX;
    assert before + data[..0] == before;
    while bufLen > 0
      invariant 0 <= bufLen <= |data| && 0 <= blockLen <= NMAX
      invariant bufLen > 0 ==> q >= 0 && bufLen == blockLen + NMAX * q
      invariant Deferred(s1, s2, before + data[..|data| - bufLen], 0)
      decreases q
    {
      var at := |data| - bufLen;
      assert before + data[..at] + data[at..at + blockLen] == before + data[..at + blockLen];
      s1, s2 := AddBlock(s1, s2, data[at..at + blockLen], before + data[..at]);
      Reduced(s1, s2, before + data[..at + blockLen], blockLen);
      s1, s2 := s1 % ADLER_MOD, s2 % ADLER_MOD;
      bufLen := bufLen - blockLen;
      blockLen, q := NMAX, q - 1;
    }
    assert before + data[..|data|] == before + data;
    check' := Pack(s1, s2, before + data);
  }
}
