/**
  Byte buffers read and written one bit at a time, low bit first (add_bit, get_bit, Huff_putBit
  and Huff_getBit of Shared/huffman.c).
 */
module BitStream {
  type byte = x: int | 0 <= x < 256 witness 0

  function Pow2(k: nat): (r: nat)
    ensures r >= 1
  {
    if k == 0 then 1 else 2 * Pow2(k - 1)
  }

  /** Bit j of n, bit 0 being the lowest. */
  predicate Bit(n: nat, j: nat) {
    if j == 0 then n % 2 == 1 else Bit(n / 2, j - 1)
  }

  /** n with bit k or-ed with v */
  function OrBit(n: nat, k: nat, v: bool): nat {
    if v && !Bit(n, k) then n + Pow2(k) else n
  }

  /** Or-ing bit k into a number without bits from k on keeps the bits below k. */
  lemma {:induction false} OrAbove(n: nat, k: nat, v: bool)
    requires n < Pow2(k)
    ensures OrBit(n, k, v) < Pow2(k + 1)
    ensures forall j: nat | j <= k :: Bit(OrBit(n, k, v), j) == if j == k then v else Bit(n, j)
  {
    if k > 0 {
      OrAbove(n / 2, k - 1, v);
      assert OrBit(n, k, v) / 2 == OrBit(n / 2, k - 1, v);
      assert OrBit(n, k, v) % 2 == n % 2;
      forall j: nat | j <= k ensures Bit(OrBit(n, k, v), j) == if j == k then v else Bit(n, j) {
        if j > 0 {
          assert Bit(OrBit(n, k, v), j) == Bit(OrBit(n / 2, k - 1, v), j - 1);
        }
      }
    }
  }

  /** Numbers of at most k bits with the same bits are the same. */
  lemma {:induction false} SameBits(m: nat, n: nat, k: nat)
    requires m < Pow2(k) && n < Pow2(k) && forall j: nat | j < k :: Bit(m, j) == Bit(n, j)
    ensures m == n
  {
    if k > 0 {
      assert Bit(m, 0) == Bit(n, 0);
      forall j: nat | j < k - 1 ensures Bit(m / 2, j) == Bit(n / 2, j) {
        assert Bit(m, j + 1) == Bit(n, j + 1);
      }
      SameBits(m / 2, n / 2, k - 1);
    }
  }

  /** The bit of the buffer at position p. */
  predicate BitAt(a: seq<byte>, p: nat)
    requires p / 8 < |a|
  {
    Bit(a[p / 8], p % 8)
  }

  /** The bits of the buffer from position p to before position q. */
  function Bits(a: seq<byte>, p: nat, q: nat): (r: seq<bool>)
    requires p <= q <= 8 * |a|
    ensures |r| == q - p
  {
    seq(q - p, i requires 0 <= i < q - p => BitAt(a, p + i))
  }

  /** The bits of a byte from position p on, in the byte that is being written, are still 0. */
  predicate Clean(a: seq<byte>, p: nat) {
    p % 8 != 0 ==> p / 8 < |a| && a[p / 8] < Pow2(p % 8)
  }

  /** Buffers that agree on the bytes up to position q have the same bits up to there. */
  lemma SameBytesSameBits(a: seq<byte>, b: seq<byte>, p: nat, q: nat, n: nat)
    requires p <= q <= 8 * n && n <= |a| && n <= |b| && a[..n] == b[..n]
    ensures Bits(a, p, q) == Bits(b, p, q)
  {
    forall i | 0 <= i < q - p ensures Bits(a, p, q)[i] == Bits(b, p, q)[i] {
      var k := (p + i) / 8;
      assert 0 <= k < n && a[k] == a[..n][k] && b[k] == b[..n][k];
      assert Bits(a, p, q)[i] == BitAt(a, p + i) && Bits(b, p, q)[i] == BitAt(b, p + i);
    }
  }

  lemma BitsSplit(a: seq<byte>, p: nat, m: nat, q: nat)
    requires p <= m <= q <= 8 * |a|
    ensures Bits(a, p, q) == Bits(a, p, m) + Bits(a, m, q)
  {
  }

  lemma BitsStep(a: seq<byte>, p: nat, q: nat)
    requires p <= q <= 8 * |a|
    ensures p < q ==> Bits(a, p, q)[0] == BitAt(a, p) && Bits(a, p, q)[1..] == Bits(a, p + 1, q)
  {
  }

  lemma ByteBound(a: seq<byte>, p: nat, v: bool)
    requires p < 8 * |a| && Clean(a, p)
    ensures OrBit(if p % 8 == 0 then 0 else a[p / 8], p % 8, v) < 256
  {
    OrAbove(if p % 8 == 0 then 0 else a[p / 8], p % 8, v);
    Pow2Grows(p % 8 + 1, 8);
    assert Pow2(8) == 2 * Pow2(7) == 4 * Pow2(6) == 8 * Pow2(5) == 16 * Pow2(4) == 256;
  }

  lemma {:induction false} Pow2Grows(a: nat, b: nat)
    requires a <= b
    ensures Pow2(a) <= Pow2(b)
    decreases b
  {
    if a < b { Pow2Grows(a, b - 1); }
  }

  /** The buffer with bit v written at p: the first bit of a byte clears the byte. */
  ghost function Written(a: seq<byte>, p: nat, v: bool): (b: seq<byte>)
    requires p < 8 * |a| && Clean(a, p)
    ensures |b| == |a|
  {
    ByteBound(a, p, v);
    a[p / 8 := OrBit(if p % 8 == 0 then 0 else a[p / 8], p % 8, v)]
  }

  /** Writing a bit at the end of the written part appends it. */
  lemma WrittenAppends(a: seq<byte>, p: nat, v: bool)
    requires p < 8 * |a| && Clean(a, p)
    ensures var b := Written(a, p, v);
      Clean(b, p + 1) && Bits(b, 0, p + 1) == Bits(a, 0, p) + [v]
  {
    var b, k, old0 := Written(a, p, v), p % 8, if p % 8 == 0 then 0 else a[p / 8];
    OrAbove(old0, k, v);
    forall i: nat | i < p ensures BitAt(b, i) == BitAt(a, i) {
      if i / 8 == p / 8 { assert i % 8 < k; }
    }
    assert BitAt(b, p) == v;
  }

  /** b is a with the given bits appended to its first p bits. */
  ghost predicate Appended(a: seq<byte>, p: nat, bits: seq<bool>, b: seq<byte>) {
    && |b| == |a| && p + |bits| <= 8 * |a| && Clean(b, p + |bits|)
    && Bits(b, 0, p + |bits|) == Bits(a, 0, p) + bits
  }

  lemma AppendedFits(a: seq<byte>, p: nat, bits: seq<bool>, b: seq<byte>)
    requires Appended(a, p, bits, b)
    ensures |b| == |a| && p + |bits| <= 8 * |b| && Clean(b, p + |bits|)
    ensures Bits(b, 0, p + |bits|) == Bits(a, 0, p) + bits
  {
  }

  lemma AppendedReadsBack(a: seq<byte>, p: nat, bits: seq<bool>, b: seq<byte>)
    requires Appended(a, p, bits, b)
    ensures |b| == |a| && p + |bits| <= 8 * |b|
    ensures Bits(b, 0, p) == Bits(a, 0, p) && Bits(b, p, p + |bits|) == bits
  {
    hide BitAt, Clean;
    BitsSplit(b, 0, p, p + |bits|);
    assert Bits(b, 0, p) == (Bits(a, 0, p) + bits)[..p] == Bits(a, 0, p);
    assert Bits(b, p, p + |bits|) == (Bits(a, 0, p) + bits)[p..] == bits;
  }

  lemma AppendedTwice(a: seq<byte>, p: nat, v: seq<bool>, b: seq<byte>, w: seq<bool>, c: seq<byte>)
    requires Appended(a, p, v, b) && Appended(b, p + |v|, w, c)
    ensures Appended(a, p, v + w, c)
  {
    assert Bits(a, 0, p) + v + w == Bits(a, 0, p) + (v + w);
  }

  /** The write position, a global of the program. */
  class Cursor {
    var bloc: nat

    constructor (start: nat)
      ensures bloc == start
    {
      bloc := start;
    }

    /** add_bit */
    method AddBit(bit: bool, fout: array<byte>)
      requires bloc < 8 * fout.Length && Clean(fout[..], bloc)
      modifies this, fout
      ensures bloc == old(bloc) + 1 && fout[..] == Written(old(fout[..]), old(bloc), bit)
      ensures Appended(old(fout[..]), old(bloc), [bit], fout[..])
    {
      WrittenAppends(fout[..], bloc, bit);
      ByteBound(fout[..], bloc, bit);
      ByteBound([0], 0, bit);
      if bloc % 8 == 0 {
        fout[bloc / 8] := 0;
      }
      fout[bloc / 8] := OrBit(fout[bloc / 8], bloc % 8, bit);
      bloc := bloc + 1;
    }

    /** get_bit, from the buffer that starts at fin[base] */
    method GetBit(fin: array<byte>, base: nat) returns (t: bool)
      requires base <= fin.Length && bloc < 8 * (fin.Length - base)
      modifies this
      ensures bloc == old(bloc) + 1 && t == BitAt(fin[base..], old(bloc))
    {
      t := Bit(fin[base + bloc / 8], bloc % 8);
      bloc := bloc + 1;
    }
  }
}
