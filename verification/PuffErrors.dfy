/**
  Streams that break the rules of RFC 1951, and the results with which puff of Shared/puff.c refuses them.
 */
module PuffErrors {
  import opened Arithmetic
  import opened BitStream
  import opened PuffCode
  import opened PuffInflate
  import opened PuffProperties
  import opened PuffDeflate
  import opened PuffStream

  /** Block type 3 is refused. */
  lemma TypeThreeIsRefused(bits: seq<bool>, p: nat, out: seq<byte>, room: Room)
    requires p + 3 <= |bits| && bits[p + 1] && bits[p + 2]
    ensures Inflate(bits, p, out, room) == Fail(-1, p + 3, out)
  {
    var kind := bits[p + 1..p + 3];
    assert kind[1..][1..] == [];
    assert LowValue(kind[1..]) == 1 + 2 * LowValue([]);
    assert LowValue(kind) == 3;
  }

  /** Two numbers add up to all ones exactly if their bits differ everywhere. */
  lemma {:induction false} Complements(a: seq<bool>, b: seq<bool>)
    requires |a| == |b|
    ensures LowValue(a) + LowValue(b) == Pow2(|a|) - 1 <==> forall j | 0 <= j < |a| :: a[j] != b[j]
  {
    if a != [] {
      Complements(a[1..], b[1..]);
      assert forall j | 0 < j < |a| :: a[j] == a[1..][j - 1] && b[j] == b[1..][j - 1];
      if forall j | 0 <= j < |a| :: a[j] != b[j] {
        forall j | 0 <= j < |a| - 1 ensures a[1..][j] != b[1..][j] {
          assert a[j + 1] != b[j + 1];
        }
      }
    }
  }

  /** From k on n bits are followed, two bytes later, by their complements. */
  predicate Opposite(bits: seq<bool>, k: nat, n: nat)
    requires k + 16 + n <= |bits|
  {
    forall i, j | k <= i < k + n && j == i + 16 :: bits[i] != bits[j]
  }

  lemma ByteIsOpposite(bits: seq<bool>, k: nat)
    requires k + 24 <= |bits|
    ensures ByteAt(bits, k + 16) as int == 255 - ByteAt(bits, k) <==> Opposite(bits, k, 8)
  {
    var a, b := bits[k..k + 8], bits[k + 16..k + 24];
    hide LowValue;
    Complements(a, b);
    SmallPowers();
    if forall j | 0 <= j < 8 :: a[j] != b[j] {
      forall i, j | k <= i < k + 8 && j == i + 16 ensures bits[i] != bits[j] {
        assert a[i - k] != b[i - k];
      }
    }
    if Opposite(bits, k, 8) {
      forall j | 0 <= j < 8 ensures a[j] != b[j] {
        assert a[j] == bits[k + j] && b[j] == bits[k + 16 + j];
      }
    }
  }

  lemma OppositeParts(bits: seq<bool>, k: nat)
    requires k + 32 <= |bits|
    ensures Opposite(bits, k, 16) <==> Opposite(bits, k, 8) && Opposite(bits, k + 8, 8)
  {
  }

  /** A stored block is refused exactly if its length and the complement of its length disagree. */
  lemma StoredIsRefused(bits: seq<bool>, p: nat, out: seq<byte>, room: Room)
    requires (p + 7) / 8 * 8 + 32 <= |bits|
    ensures
      var r, k := Stored(bits, p, out, room), (p + 7) / 8 * 8;
      (r.Fail? <==> !Opposite(bits, k, 16)) && (r.Fail? ==> r.err == -2)
  {
    hide ByteAt, BytesAt, Opposite;
    var k := (p + 7) / 8 * 8;
    ByteIsOpposite(bits, k);
    ByteIsOpposite(bits, k + 8);
    OppositeParts(bits, k);
  }

  /** More than 286 codes for literals and lengths, or more than 30 for distances, are refused. */
  lemma TooManyCodes(bits: seq<bool>, p: nat, out: seq<byte>)
    requires p + 14 <= |bits|
    requires LowValue(bits[p..p + 5]) + 257 > 286 || LowValue(bits[p + 5..p + 10]) + 1 > 30
    ensures ReadTables(bits, p, out) == NoTables(Fail(-3, p + 14, out))
  {
    hide LowValue;
  }

  /** A code for lengths that is not complete is refused, with too many codes or too few. */
  lemma LengthCodeIsRefused(bits: seq<bool>, p: nat, n: nat, codes: seq<int>, nlen: nat, ndist: nat, out: seq<byte>)
    requires 257 <= nlen <= 286 && 1 <= ndist <= 30 && 4 <= n <= 19
    requires |codes| == 19 && (forall s | 0 <= s < 19 :: 0 <= codes[s] < 8) && CountOf(codes, 0) != 19
    requires forall j | n <= j < 19 :: 0 <= OrderAt(j) < 19 && codes[OrderAt(j)] == 0
    requires Comes(bits, p, LowFirst(nlen - 257, 5) + (LowFirst(ndist - 1, 5) + (LowFirst(n - 4, 4)
                              + OrderedBits(codes, 0, n))))
    requires KraftSum(codes, 15) != 32768
    ensures ReadTables(bits, p, out) == NoTables(Fail(-4, p + 14 + 3 * n, out))
  {
    hide *;
    var a, b, c := LowFirst(nlen - 257, 5), LowFirst(ndist - 1, 5), LowFirst(n - 4, 4);
    var d := OrderedBits(codes, 0, n);
    LengthCodeIsChecked(codes);
    SmallPowers();
    ComesTwo(bits, p, a, b + (c + d));
    ComesTwo(bits, p + 5, b, c + d);
    ComesTwo(bits, p + 10, c, d);
    ValueComes(bits, p, nlen - 257, 5);
    ValueComes(bits, p + 5, ndist - 1, 5);
    ValueComes(bits, p + 10, n - 4, 4);
    NothingRead(codes);
    OrderedAreRead(bits, p + 14, 0, n, codes, Repeat(0, 19));
    CheckFails(bits, p, codes, nlen, ndist, n, out);
  }

  lemma LengthCodeIsChecked(codes: seq<int>)
    requires |codes| == 19 && (forall s | 0 <= s < 19 :: 0 <= codes[s] < 8) && CountOf(codes, 0) != 19
    ensures Checked(codes) == 0 <==> KraftSum(codes, 15) == 32768
  {
    hide CountOf, KraftSum, Checked, Fits;
    CodesAreLengths(codes);
    ConstructReturns(codes);
    FitsIsKraft(codes);
  }

  /** There are codes enough for every length exactly if there are in the end. */
  lemma FitsIsKraft(lengths: seq<int>)
    requires Lengths(lengths)
    ensures Fits(lengths) <==> KraftSum(lengths, 15) <= 32768
    ensures Pow2(MAXBITS) == 32768
  {
    hide KraftSum, Left;
    SmallPowers();
    LeftIsKraft(lengths, 15);
    if Left(lengths, 15) >= 0 {
      WasEnough(lengths, 0);
    } else if Fits(lengths) {
      NeverNegativeAt(lengths, 0, 15);
    }
  }

  lemma {:induction false} WasEnough(lengths: seq<int>, len: nat)
    requires len <= 15 && Left(lengths, 15) >= 0
    ensures NeverNegative(lengths, len)
    decreases 15 - len
  {
    if len < 15 {
      WasEnough(lengths, len + 1);
    }
  }

  lemma CheckFails(bits: seq<bool>, p: nat, codes: seq<int>, nlen: nat, ndist: nat, n: nat, out: seq<byte>)
    requires p + 14 <= |bits| && |codes| == 19 && 4 <= n <= 19 && 257 <= nlen <= 286 && 1 <= ndist <= 30
    requires LowValue(bits[p..p + 5]) == nlen - 257 && LowValue(bits[p + 5..p + 10]) == ndist - 1
    requires LowValue(bits[p + 10..p + 14]) == n - 4
    requires ReadOrdered(bits, p + 14, 0, n, Repeat(0, 19)) == Lens(codes, p + 14 + 3 * n) && Checked(codes) != 0
    ensures ReadTables(bits, p, out) == NoTables(Fail(-4, p + 14 + 3 * n, out))
  {
    hide LowValue, ReadOrdered, Checked, CountOf;
  }

  /** Just one symbol has a code. */
  predicate OneCode(lengths: seq<int>) {
    exists i :: 0 <= i < |lengths| && lengths[i] != 0 && forall j | 0 <= j < |lengths| && j != i :: lengths[j] == 0
  }

  lemma {:induction false} ZerosAreCounted(lengths: seq<int>)
    ensures CountOf(lengths, 0) <= |lengths|
    ensures CountOf(lengths, 0) == |lengths| <==> forall i | 0 <= i < |lengths| :: lengths[i] == 0
  {
    if lengths != [] {
      var n := |lengths| - 1;
      ZerosAreCounted(lengths[..n]);
      assert forall i | 0 <= i < n :: lengths[..n][i] == lengths[i];
      if lengths[n] == 0 && forall i | 0 <= i < n :: lengths[..n][i] == 0 {
        assert forall i | 0 <= i < |lengths| :: lengths[i] == 0;
      }
    }
  }

  lemma {:induction false} OneIsCounted(lengths: seq<int>)
    ensures |lengths| - CountOf(lengths, 0) == 1 <==> OneCode(lengths)
  {
    if lengths != [] {
      var n := |lengths| - 1;
      var first := lengths[..n];
      OneIsCounted(first);
      ZerosAreCounted(first);
      assert forall i | 0 <= i < n :: first[i] == lengths[i];
      if OneCode(lengths) {
        var i :| 0 <= i < |lengths| && lengths[i] != 0 && forall j | 0 <= j < |lengths| && j != i :: lengths[j] == 0;
        if i < n {
          assert first[i] != 0 && forall j | 0 <= j < n && j != i :: first[j] == 0;
        }
      }
      if lengths[n] != 0 && forall i | 0 <= i < n :: first[i] == 0 {
        assert forall j | 0 <= j < |lengths| && j != n :: lengths[j] == 0;
      }
      if lengths[n] == 0 && OneCode(first) {
        var i :| 0 <= i < n && first[i] != 0 && forall j | 0 <= j < n && j != i :: first[j] == 0;
        assert lengths[i] != 0 && forall j | 0 <= j < |lengths| && j != i :: lengths[j] == 0;
      }
    }
  }

  /** Which codes may be used: those without any code, complete ones, and those with one code. */
  lemma UsableIs(lengths: seq<int>)
    requires Lengths(lengths)
    ensures Usable(lengths) <==>
      (forall i | 0 <= i < |lengths| :: lengths[i] == 0) || KraftSum(lengths, 15) == 32768
      || (OneCode(lengths) && KraftSum(lengths, 15) <= 32768)
  {
    hide KraftSum, Fits, CountOf, FirstLeft, OneCode;
    ZerosAreCounted(lengths);
    OneIsCounted(lengths);
    FitsIsKraft(lengths);
    if CountOf(lengths, 0) != |lengths| { ConstructReturns(lengths); }
  }

  /** Codes that may not be used are refused. */
  lemma TablesAreRefused(bits: seq<bool>, p: nat, h: Header, out: seq<byte>)
    requires Spells(h) && Comes(bits, p, HeaderBits(h))
    ensures !Usable(h.lengths) ==> ReadTables(bits, p, out) == NoTables(Fail(-7, p + |HeaderBits(h)|, out))
    ensures Usable(h.lengths) && !Usable(h.distances) ==>
      ReadTables(bits, p, out) == NoTables(Fail(-8, p + |HeaderBits(h)|, out))
  {
    BothAreRead(bits, p, h, out);
    hide HeaderBits, Spells, ReadBoth, Usable;
    var all := h.lengths + h.distances;
    assert all[..|h.lengths|] == h.lengths && all[|h.lengths|..] == h.distances;
  }

  /** There is nothing to repeat in front of the first length. */
  lemma RepeatIsRefused(bits: seq<bool>, p: nat, codes: seq<int>, total: nat, out: seq<byte>)
    requires Lengths(codes) && Fits(codes) && |codes| == 19 && codes[16] > 0 && total > 0
    requires Comes(bits, p, CodeBits(codes, 16))
    ensures TableFor(Built(codes), 19) && p <= |bits|
    ensures ReadLengths(bits, p, Built(codes), [], total, out) == NoLens(Fail(-5, p + codes[16], out))
  {
    NextIs(codes, 19, bits, p, 16);
    hide Built, Next, TableFor, Fits, CodeBits;
  }

  /** Repeated lengths must not be more than there are left to give. */
  lemma RepeatsAreRefused(bits: seq<bool>, p: nat, i: Item, codes: seq<int>, lengths: seq<int>, total: nat,
      out: seq<byte>)
    requires Lengths(codes) && Fits(codes) && |codes| == 19 && !i.One? && codes[ItemSymbol(i)] > 0
    requires if i.Again? then 3 <= i.n <= 6 && lengths != [] else if i.Zeros? then 3 <= i.n <= 10 else 11 <= i.n <= 138
    requires |lengths| < total < |lengths| + i.n && Comes(bits, p, ItemBits(i, codes))
    ensures TableFor(Built(codes), 19) && p <= |bits|
    ensures ReadLengths(bits, p, Built(codes), lengths, total, out)
      == NoLens(Fail(-6, p + |ItemBits(i, codes)|, out))
  {
    hide Lengths, Fits, Built, CodeBits, Comes, Next, Take, TableFor, LowFirst, Pow2;
    SmallPowers();
    BuiltFor(codes);
    ComesFits(bits, p, ItemBits(i, codes));
    var s := ItemSymbol(i);
    CodeIsLong(codes, s);
    var n, v := if i.Again? then 2 else if i.Zeros? then 3 else 7, if i.ManyZeros? then i.n - 11 else i.n - 3;
    ComesTwo(bits, p, CodeBits(codes, s), LowFirst(v, n));
    NextIs(codes, 19, bits, p, s);
    TakesValue(bits, p + codes[s], v, n);
  }

  /** The two symbols above 285 that the fixed codes have are refused. */
  lemma LengthIsRefused(bits: seq<bool>, p: nat, s: nat, lengths: seq<int>, distances: seq<int>, out: seq<byte>,
      room: Room)
    requires Lengths(lengths) && Fits(lengths) && 286 <= s < |lengths| <= 288 && lengths[s] > 0
    requires TableFor(Built(distances), MAXDCODES) && Comes(bits, p, CodeBits(lengths, s))
    ensures TableFor(Built(lengths), FIXLCODES) && p <= |bits|
    ensures Codes(bits, p, Built(lengths), Built(distances), out, room) == Fail(-9, p + lengths[s], out)
  {
    TableSizes();
    NextIs(lengths, FIXLCODES, bits, p, s);
    hide Built, Next, TableFor, Fits, CodeBits;
  }

  /** A copy from before the start of the output is refused. */
  lemma TooFarIsRefused(bits: seq<bool>, p: nat, len: nat, dist: nat, lengths: seq<int>, distances: seq<int>,
      out: seq<byte>, room: Room)
    requires 3 <= len <= 258 && |out| < dist <= 32768
    requires Lengths(lengths) && Fits(lengths) && 257 + LengthIndex(len) < |lengths| <= FIXLCODES
    requires lengths[257 + LengthIndex(len)] > 0
    requires Lengths(distances) && Fits(distances) && |distances| <= MAXDCODES
    requires DistanceIndex(dist) < |distances| && distances[DistanceIndex(dist)] > 0
    requires
      var i, d := LengthIndex(len), DistanceIndex(dist);
      Comes(bits, p, CodeBits(lengths, 257 + i)
                     + PairBits(len - LengthBase(i), dist - DistanceBase(d), i, d, distances))
    ensures p <= |bits| && TableFor(Built(lengths), FIXLCODES) && TableFor(Built(distances), MAXDCODES)
    ensures
      var r := Codes(bits, p, Built(lengths), Built(distances), out, room);
      r.Fail? && r.err == -10 && r.out == out
  {
    hide *;
    var i, d := LengthIndex(len), DistanceIndex(dist);
    var pair := PairBits(len - LengthBase(i), dist - DistanceBase(d), i, d, distances);
    ComesTwo(bits, p, CodeBits(lengths, 257 + i), pair);
    NextIs(lengths, FIXLCODES, bits, p, 257 + i);
    CodeIsLong(lengths, 257 + i);
    PairIsRead(bits, p + lengths[257 + i], len, dist, distances, out);
    PairFails(bits, p, Built(lengths), Built(distances), out, room);
  }

  lemma PairFails(bits: seq<bool>, p: nat, lencode: Table, distcode: Table, out: seq<byte>, room: Room)
    requires p <= |bits| && TableFor(lencode, FIXLCODES) && TableFor(distcode, MAXDCODES)
    requires
      var next := Next(lencode, FIXLCODES, bits, p);
      next.Symbol? && next.symbol > 256 && DecodePair(bits, next.pos, next.symbol - 257, distcode, out).NoPair?
    ensures
      var next := Next(lencode, FIXLCODES, bits, p);
      Codes(bits, p, lencode, distcode, out, room)
      == DecodePair(bits, next.pos, next.symbol - 257, distcode, out).end
  {
    hide Next, DecodePair, TableFor;
  }
}
