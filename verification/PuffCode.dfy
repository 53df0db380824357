/**
  The Huffman codes of the deflate format as Shared/puff.c decodes them: canonical codes
  (section 3.2.2 of RFC 1951), given by nothing but a length for each symbol.
 */
module PuffCode {
  import opened BitStream
  import opened HuffmanCode

  const MAXBITS := 15

  predicate Lengths(lengths: seq<int>) {
    forall i | 0 <= i < |lengths| :: 0 <= lengths[i] <= MAXBITS
  }

  /** The number of symbols of a length */
  function CountOf(lengths: seq<int>, len: int): nat {
    if lengths == [] then 0
    else
      var n := |lengths| - 1;
      CountOf(lengths[..n], len) + if lengths[n] == len then 1 else 0
  }

  /** The symbols of a length, in ascending order */
  function OfLength(lengths: seq<int>, len: int): (r: seq<int>)
    ensures |r| == CountOf(lengths, len)
  {
    if lengths == [] then []
    else
      var n := |lengths| - 1;
      OfLength(lengths[..n], len) + if lengths[n] == len then [n] else []
  }

  /** The k-th symbol of a length has k symbols of that length before it. */
  lemma {:induction false} RankOf(lengths: seq<int>, len: int, k: nat)
    requires k < CountOf(lengths, len)
    ensures
      var s := OfLength(lengths, len)[k];
      0 <= s < |lengths| && lengths[s] == len && CountOf(lengths[..s], len) == k
  {
    var n := |lengths| - 1;
    if k < CountOf(lengths[..n], len) {
      RankOf(lengths[..n], len, k);
      var s := OfLength(lengths[..n], len)[k];
      assert lengths[..n][..s] == lengths[..s];
    }
  }

  /** Each symbol with a code is found at its rank. */
  lemma {:induction false} FoundAtRank(lengths: seq<int>, s: nat)
    requires s < |lengths|
    ensures CountOf(lengths[..s], lengths[s]) < CountOf(lengths, lengths[s])
    ensures OfLength(lengths, lengths[s])[CountOf(lengths[..s], lengths[s])] == s
  {
    var n := |lengths| - 1;
    if s < n {
      FoundAtRank(lengths[..n], s);
      assert lengths[..n][..s] == lengths[..s];
    }
  }

  /** The symbols of the lengths 1 to len, by length and then by symbol */
  function Sorted(lengths: seq<int>, len: nat): (r: seq<int>)
    ensures |r| == Offset(lengths, len + 1)
  {
    if len == 0 then [] else Sorted(lengths, len - 1) + OfLength(lengths, len)
  }

  /** The number of symbols shorter than len */
  function Offset(lengths: seq<int>, len: nat): nat {
    if len <= 1 then 0 else Offset(lengths, len - 1) + CountOf(lengths, len - 1)
  }

  lemma {:induction false} SortedAt(lengths: seq<int>, len: nat, k: nat, m: nat)
    requires 1 <= len <= m && k < CountOf(lengths, len)
    ensures Offset(lengths, len) + CountOf(lengths, len) <= |Sorted(lengths, m)|
    ensures Sorted(lengths, m)[Offset(lengths, len) + k] == OfLength(lengths, len)[k]
    decreases m
  {
    if len < m { SortedAt(lengths, len, k, m - 1); }
  }

  /** The first code of a length */
  function First(lengths: seq<int>, len: nat): nat {
    if len <= 1 then 0 else 2 * (First(lengths, len - 1) + CountOf(lengths, len - 1))
  }

  /** The canonical code of a symbol: codes of a length are consecutive, in symbol order. */
  function CodeOf(lengths: seq<int>, s: nat): nat
    requires s < |lengths| && 0 <= lengths[s]
  {
    First(lengths, lengths[s]) + CountOf(lengths[..s], lengths[s])
  }

  /** The bits of a symbol's code */
  function CodeBits(lengths: seq<int>, s: nat): (r: seq<bool>)
    requires s < |lengths| && 0 <= lengths[s]
  {
    HighFirst(CodeOf(lengths, s), lengths[s])
  }

  /** How many codes of length len are left over, or by how many there are too few. */
  function Left(lengths: seq<int>, len: nat): int {
    if len == 0 then 1 else 2 * Left(lengths, len - 1) - CountOf(lengths, len)
  }

  /** There are codes enough from a length on. */
  predicate NeverNegative(lengths: seq<int>, len: nat)
    requires len <= MAXBITS
    decreases MAXBITS - len
  {
    Left(lengths, len) >= 0 && (len < MAXBITS ==> NeverNegative(lengths, len + 1))
  }

  /** There are codes enough for every length. */
  predicate Fits(lengths: seq<int>) {
    NeverNegative(lengths, 0)
  }

  lemma {:induction false} NeverNegativeAt(lengths: seq<int>, len: nat, k: nat)
    requires len <= k <= MAXBITS && NeverNegative(lengths, len)
    ensures Left(lengths, k) >= 0
    decreases k - len
  {
    if len < k { NeverNegativeAt(lengths, len + 1, k); }
  }

  /** Every length has 2^len codes, used, passed over by longer ones, or left over. */
  lemma {:induction false} LeftOver(lengths: seq<int>, len: nat)
    requires len > 0
    ensures First(lengths, len) + CountOf(lengths, len) + Left(lengths, len) == Pow2(len)
  {
    if len > 1 {
      LeftOver(lengths, len - 1);
    } else {
      assert Left(lengths, 1) == 2 * Left(lengths, 0) - CountOf(lengths, 1);
      assert Pow2(1) == 2 * Pow2(0);
    }
  }

  /** What the code lengths take of the 2^len codes of length len. */
  function KraftSum(lengths: seq<int>, len: nat): nat {
    if lengths == [] then 0
    else
      var n := |lengths| - 1;
      KraftSum(lengths[..n], len) + if 0 < lengths[n] <= len then Pow2(len - lengths[n]) else 0
  }

  lemma {:induction false} KraftSumGrows(lengths: seq<int>, len: nat)
    ensures KraftSum(lengths, len + 1) == 2 * KraftSum(lengths, len) + CountOf(lengths, len + 1)
  {
    if lengths != [] {
      var n := |lengths| - 1;
      KraftSumGrows(lengths[..n], len);
      if 0 < lengths[n] <= len {
        assert Pow2(len + 1 - lengths[n]) == 2 * Pow2(len - lengths[n]);
      }
    }
  }

  lemma {:induction false} KraftSumOfNothing(lengths: seq<int>)
    ensures KraftSum(lengths, 0) == 0
  {
    if lengths != [] { KraftSumOfNothing(lengths[..|lengths| - 1]); }
  }

  /** What construct computes as `left` is 2^len minus the sum over all symbols of 2^(len - length). */
  lemma {:induction false} LeftIsKraft(lengths: seq<int>, len: nat)
    ensures Left(lengths, len) == Pow2(len) - KraftSum(lengths, len)
  {
    if len == 0 {
      KraftSumOfNothing(lengths);
    } else {
      LeftIsKraft(lengths, len - 1);
      KraftSumGrows(lengths, len - 1);
    }
  }

  /** A decoding table: how many symbols have each length, and the symbols in canonical order. */
  datatype Table = Table(count: seq<int>, symbol: seq<int>)

  function Sum(count: seq<int>, len: nat): int
    requires len <= |count|
  {
    if len <= 1 then 0 else Sum(count, len - 1) + count[len - 1]
  }

  predicate Proper(t: Table) {
    && |t.count| == MAXBITS + 1 && (forall i | 0 <= i <= MAXBITS :: t.count[i] >= 0)
    && Sum(t.count, MAXBITS + 1) <= |t.symbol|
  }

  /** The table that construct makes. */
  function Built(lengths: seq<int>): (t: Table)
    ensures Proper(t)
  {
    var t := Table(seq(MAXBITS + 1, len => CountOf(lengths, len)), Sorted(lengths, MAXBITS));
    SumIsOffset(lengths, t.count, MAXBITS + 1);
    t
  }

  lemma {:induction false} SumIsOffset(lengths: seq<int>, count: seq<int>, len: nat)
    requires len <= |count| && forall i | 0 <= i < |count| :: count[i] == CountOf(lengths, i)
    ensures Sum(count, len) == Offset(lengths, len)
  {
    if len > 1 { SumIsOffset(lengths, count, len - 1); }
  }

  lemma {:induction false} SumGrows(count: seq<int>, i: nat, j: nat)
    requires i <= j <= |count| && forall k | 0 <= k < |count| :: count[k] >= 0
    ensures 0 <= Sum(count, i) <= Sum(count, j)
    decreases j
  {
    if i < j { SumGrows(count, i, j - 1); } else if i > 1 { SumGrows(count, i - 1, i - 1); }
  }

  /** Where decoding stops: for want of input, without a code after MAXBITS bits, or at a symbol. */
  datatype Decoded = Starved | NoCode(pos: nat) | Symbol(symbol: int, pos: nat)

  /** decode, one bit at a time: `code` is the number spelled so far, moved up for one more bit. */
  function Scan(t: Table, bits: seq<bool>, p: nat, len: nat, code: nat, first: nat): (r: Decoded)
    requires Proper(t) && p <= |bits| && 1 <= len <= MAXBITS + 1 && first <= code
    ensures r.Symbol? ==> p < r.pos <= |bits|
    ensures r.NoCode? ==> p <= r.pos <= |bits|
    decreases MAXBITS + 1 - len
  {
    if len == MAXBITS + 1 then NoCode(p)
    else if p == |bits| then Starved
    else
      var next := code + if bits[p] then 1 else 0;
      var count := t.count[len];
      SumGrows(t.count, len, len + 1);
      SumGrows(t.count, len + 1, MAXBITS + 1);
      if next < first + count then Symbol(t.symbol[Sum(t.count, len) + next - first], p + 1)
      else Scan(t, bits, p + 1, len + 1, 2 * next, 2 * (first + count))
  }

  function Decode(t: Table, bits: seq<bool>, p: nat): (r: Decoded)
    requires Proper(t) && p <= |bits|
    ensures r.Symbol? ==> p < r.pos <= |bits|
    ensures r.NoCode? ==> p <= r.pos <= |bits|
  {
    Scan(t, bits, p, 1, 0, 0)
  }

  lemma {:induction false} NumberBelow(bits: seq<bool>)
    ensures Number(bits) < Pow2(|bits|)
  {
    if bits != [] { NumberBelow(bits[..|bits| - 1]); }
  }

  lemma {:induction false} BitsOfNumber(bits: seq<bool>)
    ensures HighFirst(Number(bits), |bits|) == bits
  {
    if bits != [] {
      var n := |bits| - 1;
      BitsOfNumber(bits[..n]);
      assert Number(bits) / 2 == Number(bits[..n]) && (Number(bits) % 2 == 1 <==> bits[n]);
      assert bits == bits[..n] + [bits[n]];
    }
  }

  /** Bits that start with the bits of a spell at most (a + 1) * 2^d - 1. */
  lemma {:induction false} NumberUnder(bits: seq<bool>, k: nat)
    requires k <= |bits|
    ensures Number(bits) < (Number(bits[..k]) + 1) * Pow2(|bits| - k)
    decreases |bits| - k
  {
    if k < |bits| {
      NumberUnder(bits[..|bits| - 1], k);
      assert bits[..|bits| - 1][..k] == bits[..k];
      var a, b := Number(bits[..k]) + 1, Pow2(|bits| - 1 - k);
      assert a * (2 * b) == 2 * (a * b);
    } else {
      assert bits[..k] == bits;
    }
  }

  lemma {:induction false} FirstGrows(lengths: seq<int>, len: nat, d: nat)
    requires len >= 1 && d >= 1
    ensures First(lengths, len + d) >= (First(lengths, len) + CountOf(lengths, len)) * Pow2(d)
  {
    hide CountOf;
    var a := First(lengths, len) + CountOf(lengths, len);
    if d == 1 {
      assert Pow2(1) == 2 * Pow2(0);
    } else {
      FirstGrows(lengths, len, d - 1);
      assert a * (2 * Pow2(d - 1)) == 2 * (a * Pow2(d - 1));
    }
  }

  /** How far decoding from p0 has come when it looks for codes of length len. */
  predicate Looking(lengths: seq<int>, bits: seq<bool>, p0: nat, p: nat, len: nat, code: nat, first: nat) {
    && p0 <= p <= |bits| && 1 <= len <= MAXBITS + 1 && p == p0 + len - 1
    && code == 2 * Number(bits[p0..p]) && first == First(lengths, len) <= code
  }

  lemma LookingOn(lengths: seq<int>, bits: seq<bool>, p0: nat, p: nat, len: nat, code: nat, first: nat)
    requires Looking(lengths, bits, p0, p, len, code, first) && p < |bits| && len <= MAXBITS
    ensures
      var next := code + if bits[p] then 1 else 0;
      && next == Number(bits[p0..p + 1])
      && (next >= first + CountOf(lengths, len) ==>
          Looking(lengths, bits, p0, p + 1, len + 1, 2 * next, 2 * (first + CountOf(lengths, len))))
  {
    assert bits[p0..p + 1][..p - p0] == bits[p0..p];
  }

  /** The symbol found in the table */
  lemma TableSymbol(lengths: seq<int>, len: nat, k: nat)
    requires 1 <= len <= MAXBITS && k < CountOf(lengths, len)
    ensures
      var t := Built(lengths);
      && 0 <= Sum(t.count, len) + k < |t.symbol|
      && t.symbol[Sum(t.count, len) + k] == OfLength(lengths, len)[k]
  {
    hide Sorted, OfLength;
    var t := Built(lengths);
    SumIsOffset(lengths, t.count, len);
    SortedAt(lengths, len, k, MAXBITS);
  }

  /** It is the one with that code. */
  lemma TableSymbolHasCode(lengths: seq<int>, len: nat, k: nat)
    requires 1 <= len <= MAXBITS && k < CountOf(lengths, len)
    ensures
      var t := Built(lengths);
      && 0 <= Sum(t.count, len) + k < |t.symbol|
      && var s := t.symbol[Sum(t.count, len) + k];
      0 <= s < |lengths| && lengths[s] == len && CodeOf(lengths, s) == First(lengths, len) + k
  {
    hide Built, OfLength, CountOf, Sum;
    TableSymbol(lengths, len, k);
    RankOf(lengths, len, k);
  }

  /** What decoding gives is a symbol whose code has just been read. */
  lemma {:induction false} ScanIsSound(lengths: seq<int>, bits: seq<bool>, p0: nat, p: nat, len: nat, code: nat,
          first: nat)
    requires Looking(lengths, bits, p0, p, len, code, first)
    ensures
      var r := Scan(Built(lengths), bits, p, len, code, first);
      r.Symbol? ==>
        && 0 <= r.symbol < |lengths| && 1 <= lengths[r.symbol] <= MAXBITS && r.pos == p0 + lengths[r.symbol]
        && Number(bits[p0..r.pos]) == CodeOf(lengths, r.symbol)
    decreases MAXBITS + 1 - len
  {
    hide Built, Number, CountOf, Sum, CodeOf, First;
    BuiltCounts(lengths);
    if len <= MAXBITS && p < |bits| {
      LookingOn(lengths, bits, p0, p, len, code, first);
      var next := code + if bits[p] then 1 else 0;
      if next < first + CountOf(lengths, len) {
        TableSymbolHasCode(lengths, len, next - first);
      } else {
        ScanIsSound(lengths, bits, p0, p + 1, len + 1, 2 * next, 2 * (first + CountOf(lengths, len)));
      }
    }
  }

  lemma BuiltCounts(lengths: seq<int>)
    ensures Proper(Built(lengths))
    ensures forall len | 0 <= len <= MAXBITS :: Built(lengths).count[len] == CountOf(lengths, len)
  {
  }

  /** A symbol is in the table at its code. */
  lemma SymbolIsThere(lengths: seq<int>, s: nat)
    requires s < |lengths| && 1 <= lengths[s] <= MAXBITS
    ensures
      var t, len := Built(lengths), lengths[s];
      var k := CodeOf(lengths, s) - First(lengths, len);
      && 0 <= k < CountOf(lengths, len) && 0 <= Sum(t.count, len) + k < |t.symbol|
      && t.symbol[Sum(t.count, len) + k] == s
  {
    hide Built, Sum, First;
    FoundAtRank(lengths, s);
    TableSymbol(lengths, lengths[s], CodeOf(lengths, s) - First(lengths, lengths[s]));
  }

  /** A symbol whose code comes next is found. */
  lemma {:induction false} ScanFinds(lengths: seq<int>, s: nat, bits: seq<bool>, p0: nat, p: nat, len: nat,
          code: nat, first: nat)
    requires Looking(lengths, bits, p0, p, len, code, first) && s < |lengths| && len <= lengths[s] <= MAXBITS
    requires p0 + lengths[s] <= |bits| && Number(bits[p0..p0 + lengths[s]]) == CodeOf(lengths, s)
    ensures Scan(Built(lengths), bits, p, len, code, first) == Symbol(s, p0 + lengths[s])
    decreases MAXBITS + 1 - len
  {
    hide Built, Number, CountOf, Sum, CodeOf, First;
    BuiltCounts(lengths);
    LookingOn(lengths, bits, p0, p, len, code, first);
    var next := code + if bits[p] then 1 else 0;
    if len == lengths[s] {
      SymbolIsThere(lengths, s);
    } else {
      LongerIsAbove(lengths, s, bits, p0, len);
      ScanFinds(lengths, s, bits, p0, p + 1, len + 1, 2 * next, 2 * (first + CountOf(lengths, len)));
    }
  }

  /** The start of a longer code lies above the codes of its length. */
  lemma LongerIsAbove(lengths: seq<int>, s: nat, bits: seq<bool>, p0: nat, len: nat)
    requires s < |lengths| && 1 <= len < lengths[s] <= MAXBITS
    requires p0 + lengths[s] <= |bits| && Number(bits[p0..p0 + lengths[s]]) == CodeOf(lengths, s)
    ensures Number(bits[p0..p0 + len]) >= First(lengths, len) + CountOf(lengths, len)
  {
    var d := lengths[s] - len;
    var whole, start := bits[p0..p0 + lengths[s]], Number(bits[p0..p0 + len]);
    var above := First(lengths, len) + CountOf(lengths, len);
    FirstGrows(lengths, len, d);
    NumberUnder(whole, len);
    assert whole[..len] == bits[p0..p0 + len];
    if start + 1 <= above {
      Monotone(start + 1, above, Pow2(d));
    }
  }

  lemma Monotone(a: nat, b: nat, c: nat)
    requires a <= b
    ensures a * c <= b * c
  {
  }

  /** The code of a symbol fits its length if the lengths do not ask for too many codes. */
  lemma CodeFits(lengths: seq<int>, s: nat)
    requires Lengths(lengths) && Fits(lengths) && s < |lengths| && lengths[s] > 0
    ensures CodeOf(lengths, s) < Pow2(lengths[s])
  {
    FoundAtRank(lengths, s);
    LeftOver(lengths, lengths[s]);
    NeverNegativeAt(lengths, 0, lengths[s]);
  }

  /** decode gives symbol s exactly if the next bits are the canonical code of s, and consumes
      exactly that code. */
  lemma DecodesCode(lengths: seq<int>, bits: seq<bool>, p: nat, s: nat, q: nat)
    requires Lengths(lengths) && Fits(lengths) && p <= |bits|
    ensures Decode(Built(lengths), bits, p) == Symbol(s, q) <==>
      && s < |lengths| && lengths[s] > 0 && q == p + lengths[s] <= |bits|
      && bits[p..q] == CodeBits(lengths, s)
  {
    hide Built, Scan, Number, HighFirst, CodeOf;
    var r := Decode(Built(lengths), bits, p);
    assert bits[p..p] == [];
    NumberOfNothing();
    assert Looking(lengths, bits, p, p, 1, 0, 0);
    ScanIsSound(lengths, bits, p, p, 1, 0, 0);
    if r == Symbol(s, q) {
      BitsOfNumber(bits[p..q]);
    } else if s < |lengths| && lengths[s] > 0 && q == p + lengths[s] <= |bits| && bits[p..q] == CodeBits(lengths, s) {
      CodeFits(lengths, s);
      NumberOfBits(CodeOf(lengths, s), lengths[s]);
      ScanFinds(lengths, s, bits, p, p, 1, 0, 0);
    }
  }

  lemma NumberOfNothing()
    ensures Number([]) == 0
  {
  }

  /** No canonical code starts another one. */
  lemma CodesArePrefixFree(lengths: seq<int>, s: nat, t: nat)
    requires Lengths(lengths) && Fits(lengths) && s < |lengths| && t < |lengths| && 0 < lengths[s] <= lengths[t]
    requires CodeBits(lengths, t)[..lengths[s]] == CodeBits(lengths, s)
    ensures s == t
  {
    hide Built, Decode, CodeOf, HighFirst;
    var bits := CodeBits(lengths, t);
    assert bits[0..lengths[s]] == bits[..lengths[s]] && bits[0..lengths[t]] == bits;
    DecodesCode(lengths, bits, 0, s, lengths[s]);
    DecodesCode(lengths, bits, 0, t, lengths[t]);
  }

  lemma NoneLeft(lengths: seq<int>)
    requires Left(lengths, MAXBITS) == 0
    ensures First(lengths, MAXBITS + 1) == 2 * Pow2(MAXBITS)
  {
    hide Left, CountOf, Pow2;
    LeftOver(lengths, MAXBITS);
  }

  /** Scanning with a complete code finds a symbol or runs out of input. */
  lemma {:induction false} ScanOfComplete(lengths: seq<int>, bits: seq<bool>, p0: nat, p: nat, len: nat, code: nat,
          first: nat)
    requires Looking(lengths, bits, p0, p, len, code, first) && Left(lengths, MAXBITS) == 0
    ensures !Scan(Built(lengths), bits, p, len, code, first).NoCode?
    decreases MAXBITS + 1 - len
  {
    hide Built, Number, Left, CountOf, First, Pow2, Sum;
    BuiltCounts(lengths);
    if len == MAXBITS + 1 {
      NoneLeft(lengths);
      NumberBelow(bits[p0..p]);
    } else if p < |bits| {
      LookingOn(lengths, bits, p0, p, len, code, first);
      var next := code + if bits[p] then 1 else 0;
      if next >= first + CountOf(lengths, len) {
        ScanOfComplete(lengths, bits, p0, p + 1, len + 1, 2 * next, 2 * (first + CountOf(lengths, len)));
      }
    }
  }

  lemma {:induction false} AllOnes(n: nat)
    ensures Number(seq(n, _ => true)) == Pow2(n) - 1
  {
    if n > 0 {
      AllOnes(n - 1);
      assert seq(n, _ => true)[..n - 1] == seq(n - 1, _ => true);
    } else {
      NumberOfNothing();
    }
  }

  lemma {:induction false} LeftBefore(lengths: seq<int>, len: nat, m: nat)
    requires len <= m && Left(lengths, m) > 0
    ensures Left(lengths, len) > 0
    decreases m
  {
    if len < m { LeftBefore(lengths, len, m - 1); }
  }

  lemma OnesAreAbove(lengths: seq<int>, p: nat)
    requires Left(lengths, MAXBITS) > 0 && p < MAXBITS
    ensures Number(seq(MAXBITS, _ => true)[0..p + 1]) >= First(lengths, p + 1) + CountOf(lengths, p + 1)
  {
    hide Left, CountOf, First, Number;
    assert seq(MAXBITS, _ => true)[0..p + 1] == seq(p + 1, _ => true);
    AllOnes(p + 1);
    LeftBefore(lengths, p + 1, MAXBITS);
    LeftOver(lengths, p + 1);
  }

  /** With codes left over, a run of ones has no code. */
  lemma {:induction false} ScanOfOnes(lengths: seq<int>, p: nat, len: nat, code: nat, first: nat)
    requires Left(lengths, MAXBITS) > 0 && Looking(lengths, seq(MAXBITS, _ => true), 0, p, len, code, first)
    ensures Scan(Built(lengths), seq(MAXBITS, _ => true), p, len, code, first) == NoCode(MAXBITS)
    decreases MAXBITS + 1 - len
  {
    hide Built, Number, Left, CountOf, First, Sum;
    BuiltCounts(lengths);
    if len <= MAXBITS {
      LookingOn(lengths, seq(MAXBITS, _ => true), 0, p, len, code, first);
      OnesAreAbove(lengths, p);
      ScanOfOnes(lengths, p + 1, len + 1, 2 * (code + 1), 2 * (first + CountOf(lengths, len)));
    }
  }

  /** Decoding can end without a symbol exactly if codes are left over. */
  lemma CompleteCodes(lengths: seq<int>)
    requires Lengths(lengths) && Fits(lengths)
    ensures Left(lengths, MAXBITS) == 0 <==>
      forall bits: seq<bool>, p: nat | p <= |bits| :: !Decode(Built(lengths), bits, p).NoCode?
  {
    hide Built, Left, Number, Scan;
    NumberOfNothing();
    NeverNegativeAt(lengths, 0, MAXBITS);
    if Left(lengths, MAXBITS) == 0 {
      forall bits: seq<bool>, p: nat | p <= |bits| ensures !Decode(Built(lengths), bits, p).NoCode? {
        assert bits[p..p] == [];
        ScanOfComplete(lengths, bits, p, p, 1, 0, 0);
      }
    } else {
      var bits := seq(MAXBITS, _ => true);
      assert bits[0..0] == [];
      ScanOfOnes(lengths, 0, 1, 0, 0);
      assert Decode(Built(lengths), bits, 0).NoCode?;
    }
  }

  /** What construct returns once it has found codes: the first negative `left`, or the last one. */
  function FirstLeft(lengths: seq<int>, len: nat): int
    requires len <= MAXBITS + 1
    decreases MAXBITS + 1 - len
  {
    if len == MAXBITS + 1 then Left(lengths, MAXBITS)
    else if Left(lengths, len) < 0 then Left(lengths, len)
    else FirstLeft(lengths, len + 1)
  }

  /** What construct returns. */
  function Checked(lengths: seq<int>): int {
    if CountOf(lengths, 0) == |lengths| then 0 else FirstLeft(lengths, 1)
  }

  lemma {:induction false} FirstLeftIs(lengths: seq<int>, len: nat)
    requires 1 <= len <= MAXBITS
    ensures FirstLeft(lengths, len) >= 0 <==> NeverNegative(lengths, len)
    ensures FirstLeft(lengths, len) >= 0 ==> FirstLeft(lengths, len) == Left(lengths, MAXBITS)
    decreases MAXBITS + 1 - len
  {
    if len < MAXBITS { FirstLeftIs(lengths, len + 1); }
  }

  /** construct fails exactly on lengths that ask for too many codes; otherwise it returns
      2^15 minus the sum of 2^(15 - length). */
  lemma ConstructReturns(lengths: seq<int>)
    requires Lengths(lengths) && CountOf(lengths, 0) != |lengths|
    ensures Checked(lengths) < 0 <==> !Fits(lengths)
    ensures Fits(lengths) ==> Checked(lengths) == Pow2(MAXBITS) - KraftSum(lengths, MAXBITS)
  {
    hide FirstLeft, KraftSum;
    FirstLeftIs(lengths, 1);
    LeftIsKraft(lengths, MAXBITS);
    assert Left(lengths, 0) == 1;
  }
}
