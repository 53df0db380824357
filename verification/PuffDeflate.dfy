/**
  The other side of inflating: data written as deflate streams (RFC 1951), and that puff of Shared/puff.c gives
  it back. The tables of section 3.2.5 are computed here from the numbers of extra bits.
 */
module PuffDeflate {
  import opened Arithmetic
  import opened BitStream
  import HuffmanCode
  import opened PuffCode
  import opened PuffInflate
  import opened PuffProperties

  // ---- bits ----

  /** The low n bits of a number, the lowest first */
  function LowFirst(v: nat, n: nat): (r: seq<bool>)
    ensures |r| == n
  {
    if n == 0 then [] else [v % 2 == 1] + LowFirst(v / 2, n - 1)
  }

  lemma {:induction false} ValueOfLow(v: nat, n: nat)
    requires v < Pow2(n)
    ensures LowValue(LowFirst(v, n)) == v
  {
    if n > 0 {
      ValueOfLow(v / 2, n - 1);
      assert LowFirst(v, n)[1..] == LowFirst(v / 2, n - 1);
    }
  }

  /** These bits come next. */
  predicate Comes(bits: seq<bool>, p: nat, part: seq<bool>) {
    p + |part| <= |bits| && bits[p..p + |part|] == part
  }

  lemma ComesTwo(bits: seq<bool>, p: nat, a: seq<bool>, b: seq<bool>)
    requires Comes(bits, p, a + b)
    ensures Comes(bits, p, a) && Comes(bits, p + |a|, b)
  {
    var whole := bits[p..p + |a + b|];
    assert whole[..|a|] == a && whole[|a|..] == b;
    assert whole[..|a|] == bits[p..p + |a|] && whole[|a|..] == bits[p + |a|..p + |a| + |b|];
  }

  lemma ComesFits(bits: seq<bool>, p: nat, part: seq<bool>)
    requires Comes(bits, p, part)
    ensures p + |part| <= |bits|
  {
  }

  lemma TakesValue(bits: seq<bool>, p: nat, v: nat, n: nat)
    requires Comes(bits, p, LowFirst(v, n)) && v < Pow2(n)
    ensures Take(bits, p, n) == Taken(v, p + n)
  {
    ValueOfLow(v, n);
  }

  lemma NextIs(lengths: seq<int>, n: nat, bits: seq<bool>, p: nat, s: nat)
    requires Lengths(lengths) && Fits(lengths) && |lengths| <= n && s < |lengths| && lengths[s] > 0
    requires Comes(bits, p, CodeBits(lengths, s))
    ensures TableFor(Built(lengths), n) && p <= |bits| && p + lengths[s] <= |bits|
    ensures Next(Built(lengths), n, bits, p) == Symbol(s, p + lengths[s])
  {
    hide Built, CodeBits, Decode, Fits, TableFor;
    BuiltFor(lengths);
    CodeIsLong(lengths, s);
    DecodesCode(lengths, bits, p, s, p + lengths[s]);
  }

  lemma CodeIsLong(lengths: seq<int>, s: nat)
    requires s < |lengths| && 0 <= lengths[s]
    ensures |CodeBits(lengths, s)| == lengths[s]
  {
  }

  // ---- lengths and distances ----

  /** The extra bits of a length symbol, counted from 257 */
  function LengthExtra(i: nat): nat {
    if i < 8 || i == 28 then 0 else (i - 4) / 4
  }

  /** The least length of a symbol: the symbols cover the lengths from 3 on, and 258 has its own. */
  function LengthBase(i: nat): nat {
    if i == 0 then 3 else if i == 28 then 258 else LengthBase(i - 1) + Pow2(LengthExtra(i - 1))
  }

  function DistanceExtra(d: nat): nat {
    if d < 4 then 0 else (d - 2) / 2
  }

  function DistanceBase(d: nat): nat {
    if d == 0 then 1 else DistanceBase(d - 1) + Pow2(DistanceExtra(d - 1))
  }

  /** What the program's tables say of a length symbol: its least length and its extra bits */
  function LengthEntry(i: nat): (nat, nat)
    requires i < 29
  {
    (LENS[i], LEXT[i])
  }

  function DistanceEntry(d: nat): (nat, nat)
    requires d < 30
  {
    (DISTS[d], DEXT[d])
  }

  /** The tables are these. */
  lemma {:induction false} LengthTables(i: nat)
    requires i < 29
    ensures LengthEntry(i) == (LengthBase(i), LengthExtra(i))
  {
    hide Pow2, LengthExtra, LengthEntry;
    LengthExtraIs(i);
    if 0 < i < 28 {
      LengthTables(i - 1);
      LengthStep(i - 1);
    } else {
      LengthEnds();
    }
  }

  lemma LengthEnds()
    ensures LengthEntry(0).0 == 3 && LengthEntry(28).0 == 258
  {
  }

  lemma LengthExtraIs(i: nat)
    requires i < 29
    ensures LengthEntry(i).1 == LengthExtra(i)
  {
  }

  lemma LengthStep(i: nat)
    requires i < 27
    ensures LengthEntry(i + 1).0 == LengthEntry(i).0 + Pow2(LengthEntry(i).1)
  {
    SmallPowers();
    hide Pow2;
  }

  lemma {:induction false} DistanceTables(d: nat)
    requires d < 30
    ensures DistanceEntry(d) == (DistanceBase(d), DistanceExtra(d))
  {
    hide Pow2, DistanceExtra, DistanceEntry;
    DistanceExtraIs(d);
    if d > 0 {
      DistanceTables(d - 1);
      DistanceStep(d - 1);
    } else {
      DistanceStart();
    }
  }

  lemma DistanceStart()
    ensures DistanceEntry(0).0 == 1
  {
  }

  lemma DistanceExtraIs(d: nat)
    requires d < 30
    ensures DistanceEntry(d).1 == DistanceExtra(d)
  {
  }

  lemma DistanceStep(d: nat)
    requires d < 29
    ensures DistanceEntry(d + 1).0 == DistanceEntry(d).0 + Pow2(DistanceEntry(d).1)
  {
    SmallPowers();
    hide Pow2;
  }

  /** Symbol i, counted from 257, stands for this length with some extra bits. */
  predicate LengthHas(i: nat, len: nat) {
    if i == 28 then len == 258 else i < 28 && LengthBase(i) <= len < LengthBase(i) + Pow2(LengthExtra(i))
  }

  predicate DistanceHas(d: nat, dist: nat) {
    d < 30 && DistanceBase(d) <= dist < DistanceBase(d) + Pow2(DistanceExtra(d))
  }

  lemma {:induction false} LengthFound(len: nat, i: nat) returns (r: nat)
    requires 3 <= len && i < 28 && len < LengthBase(i) + Pow2(LengthExtra(i))
    ensures LengthHas(r, len)
  {
    if i > 0 && len < LengthBase(i) { r := LengthFound(len, i - 1); } else { r := i; }
  }

  lemma {:induction false} DistanceFound(dist: nat, d: nat) returns (r: nat)
    requires 1 <= dist && d < 30 && dist < DistanceBase(d) + Pow2(DistanceExtra(d))
    ensures DistanceHas(r, dist)
  {
    if d > 0 && dist < DistanceBase(d) { r := DistanceFound(dist, d - 1); } else { r := d; }
  }

  /** Every length and every distance has a symbol whose extra bits reach it. */
  lemma SymbolsReach(len: nat, dist: nat)
    requires 3 <= len <= 258 && 1 <= dist <= 32768
    ensures exists i: nat :: LengthHas(i, len)
    ensures exists d: nat :: DistanceHas(d, dist)
  {
    hide LengthBase, DistanceBase, LengthHas, DistanceHas;
    TableEnds();
    var d := DistanceFound(dist, 29);
    if len == 258 {
      LongestHas();
      assert LengthHas(28, len);
    } else {
      var i := LengthFound(len, 27);
    }
  }

  lemma LongestHas()
    ensures LengthHas(28, 258)
  {
  }

  lemma TableEnds()
    ensures LengthBase(27) + Pow2(LengthExtra(27)) == 259 && DistanceBase(29) + Pow2(DistanceExtra(29)) == 32769
  {
    SmallPowers();
    LengthTables(27);
    DistanceTables(29);
    hide Pow2, LengthBase, DistanceBase;
  }

  ghost function LengthIndex(len: nat): (i: nat)
    requires 3 <= len <= 258
    ensures LengthHas(i, len) && i < 29
  {
    SymbolsReach(len, 1);
    var i: nat :| LengthHas(i, len);
    i
  }

  ghost function DistanceIndex(dist: nat): (d: nat)
    requires 1 <= dist <= 32768
    ensures DistanceHas(d, dist) && d < 30
  {
    SymbolsReach(3, dist);
    var d: nat :| DistanceHas(d, dist);
    d
  }

  /** What the extra bits of a symbol have to say */
  lemma HasExtra(len: nat, dist: nat, i: nat, d: nat)
    requires LengthHas(i, len) && DistanceHas(d, dist)
    ensures LengthBase(i) <= len < LengthBase(i) + Pow2(LengthExtra(i))
    ensures DistanceBase(d) <= dist < DistanceBase(d) + Pow2(DistanceExtra(d))
  {
  }

  // ---- literals and copies ----

  datatype Token = Literal(b: byte) | Copy(len: nat, dist: nat)

  /** The token can be written behind this output, with codes of these lengths. */
  ghost predicate Writable(t: Token, lengths: seq<int>, distances: seq<int>, out: seq<byte>) {
    match t
    case Literal(b) => b < |lengths| && lengths[b] > 0
    case Copy(len, dist) =>
      && 3 <= len <= 258 && 1 <= dist <= 32768 && dist <= |out|
      && 257 + LengthIndex(len) < |lengths| && lengths[257 + LengthIndex(len)] > 0
      && DistanceIndex(dist) < |distances| && distances[DistanceIndex(dist)] > 0
  }

  ghost function TokenBits(t: Token, lengths: seq<int>, distances: seq<int>, out: seq<byte>): seq<bool>
    requires Writable(t, lengths, distances, out)
  {
    match t
    case Literal(b) => CodeBits(lengths, b)
    case Copy(len, dist) => CopyBits(len, dist, LengthIndex(len), DistanceIndex(dist), lengths, distances)
  }

  /** A length and a distance with these symbols, each followed by its extra bits */
  function CopyBits(len: int, dist: int, i: nat, d: nat, lengths: seq<int>, distances: seq<int>): seq<bool>
    requires 257 + i < |lengths| && lengths[257 + i] > 0 && d < |distances| && distances[d] > 0
  {
    CodeBits(lengths, 257 + i) + PairBits(len - LengthBase(i), dist - DistanceBase(d), i, d, distances)
  }

  function PairBits(extra: int, more: int, i: nat, d: nat, distances: seq<int>): seq<bool>
    requires d < |distances| && distances[d] > 0
  {
    if extra < 0 || more < 0 then []
    else LowFirst(extra, LengthExtra(i)) + (CodeBits(distances, d) + LowFirst(more, DistanceExtra(d)))
  }

  /** What the token stands for: a byte, or bytes of the output, which repeat if there are too few. */
  function Produced(t: Token, out: seq<byte>): (r: seq<byte>)
    requires t.Copy? ==> 0 < t.dist <= |out|
    ensures |r| >= |out|
  {
    match t
    case Literal(b) => out + [b]
    case Copy(len, dist) => out + seq(len, j requires 0 <= j < len => out[|out| - dist + j % dist])
  }

  lemma {:induction false} CopiedAt(out: seq<byte>, dist: nat, len: nat, j: nat)
    requires 0 < dist <= |out| && j < len
    ensures Copied(out, dist, len)[|out| + j] == out[|out| - dist + j % dist]
    decreases j
  {
    hide Copied;
    var r := Copied(out, dist, len);
    CopyRepeats(out, dist, len);
    assert r[|out| + j] == r[|out| + j - dist];
    if j < dist {
      RestIs(j, dist, 0, j);
      assert r[..|out|][|out| + j - dist] == r[|out| + j - dist];
    } else {
      CopiedAt(out, dist, len, j - dist);
      RestOfLess(j, dist);
    }
  }

  lemma RestOfLess(j: nat, d: nat)
    requires 0 < d <= j
    ensures (j - d) % d == j % d
  {
    Parts(j, d);
    assert d * (j / d - 1) == d * (j / d) - d;
    RestIs(j - d, d, j / d - 1, j % d);
  }

  /** Copying byte by byte does that. */
  lemma CopiedIs(out: seq<byte>, dist: nat, len: nat)
    requires 0 < dist <= |out|
    ensures Copied(out, dist, len) == Produced(Copy(len, dist), out)
  {
    var r, p := Copied(out, dist, len), Produced(Copy(len, dist), out);
    forall k | 0 <= k < |r| ensures r[k] == p[k] {
      if k < |out| {
        assert r[..|out|][k] == out[k];
      } else {
        CopiedAt(out, dist, len, k - |out|);
      }
    }
  }

  /** A length and a distance are read as they were written, and refused exactly if the distance is too far. */
  lemma PairIsRead(bits: seq<bool>, p: nat, len: nat, dist: nat, distances: seq<int>, out: seq<byte>)
    requires 3 <= len <= 258 && 1 <= dist <= 32768
    requires Lengths(distances) && Fits(distances) && |distances| <= MAXDCODES
    requires DistanceIndex(dist) < |distances| && distances[DistanceIndex(dist)] > 0
    requires
      var i, d := LengthIndex(len), DistanceIndex(dist);
      Comes(bits, p, PairBits(len - LengthBase(i), dist - DistanceBase(d), i, d, distances))
    ensures p <= |bits| && TableFor(Built(distances), MAXDCODES)
    ensures
      var i, d := LengthIndex(len), DistanceIndex(dist);
      var end := p + LengthExtra(i) + distances[d] + DistanceExtra(d);
      DecodePair(bits, p, i, Built(distances), out)
      == if dist <= |out| then Pair(len, dist, end) else NoPair(Fail(-10, end, out))
  {
    hide *;
    var i, d := LengthIndex(len), DistanceIndex(dist);
    HasExtra(len, dist, i, d);
    LengthTables(i);
    DistanceTables(d);
    PairIsLong(len - LengthBase(i), dist - DistanceBase(d), i, d, distances);
    PairParts(bits, p, i, d, distances, len - LengthBase(i), dist - DistanceBase(d));
    PairOf(bits, p, i, d, Built(distances), out, len - LengthBase(i), dist - DistanceBase(d));
  }

  lemma PairIsLong(extra: nat, more: nat, i: nat, d: nat, distances: seq<int>)
    requires d < |distances| && distances[d] > 0
    ensures PairBits(extra, more, i, d, distances)
      == LowFirst(extra, LengthExtra(i)) + (CodeBits(distances, d) + LowFirst(more, DistanceExtra(d)))
    ensures |PairBits(extra, more, i, d, distances)| == LengthExtra(i) + distances[d] + DistanceExtra(d)
  {
    hide LengthExtra, DistanceExtra;
  }

  /** What comes when a pair is read */
  lemma PairParts(bits: seq<bool>, p: nat, i: nat, d: nat, distances: seq<int>, extra: nat, more: nat)
    requires i < 29 && d < 30 && Lengths(distances) && Fits(distances) && |distances| <= MAXDCODES
    requires d < |distances| && distances[d] > 0
    requires extra < Pow2(LengthEntry(i).1) && more < Pow2(DistanceEntry(d).1)
    requires Comes(bits, p, LowFirst(extra, LengthEntry(i).1)
               + (CodeBits(distances, d) + LowFirst(more, DistanceEntry(d).1)))
    ensures TableFor(Built(distances), MAXDCODES) && p + LengthEntry(i).1 + distances[d] <= |bits|
    ensures Take(bits, p, LengthEntry(i).1) == Taken(extra, p + LengthEntry(i).1)
    ensures
      var q := p + LengthEntry(i).1;
      && Next(Built(distances), MAXDCODES, bits, q) == Symbol(d, q + distances[d])
      && Take(bits, q + distances[d], DistanceEntry(d).1)
         == Taken(more, q + distances[d] + DistanceEntry(d).1)
  {
    hide *;
    var m, n := LengthEntry(i).1, DistanceEntry(d).1;
    ComesTwo(bits, p, LowFirst(extra, m), CodeBits(distances, d) + LowFirst(more, n));
    ComesTwo(bits, p + m, CodeBits(distances, d), LowFirst(more, n));
    TakesValue(bits, p, extra, m);
    CodeIsLong(distances, d);
    NextIs(distances, MAXDCODES, bits, p + m, d);
    TakesValue(bits, p + m + distances[d], more, n);
  }

  /** A pair, by the tables */
  lemma PairOf(bits: seq<bool>, p: nat, i: nat, d: nat, distcode: Table, out: seq<byte>, extra: nat, more: nat)
    requires p <= |bits| && i < 29 && d < 30 && TableFor(distcode, MAXDCODES)
    requires Take(bits, p, LengthEntry(i).1) == Taken(extra, p + LengthEntry(i).1)
    requires Take(bits, p, LengthEntry(i).1).pos <= |bits|
    requires
      var next := Next(distcode, MAXDCODES, bits, p + LengthEntry(i).1);
      && next.Symbol? && next.symbol == d
      && Take(bits, next.pos, DistanceEntry(d).1) == Taken(more, next.pos + DistanceEntry(d).1)
    ensures
      var end := Next(distcode, MAXDCODES, bits, p + LengthEntry(i).1).pos + DistanceEntry(d).1;
      var dist := DistanceEntry(d).0 + more;
      DecodePair(bits, p, i, distcode, out)
      == if dist <= |out| then Pair(LengthEntry(i).0 + extra, dist, end) else NoPair(Fail(-10, end, out))
  {
    TableSizes();
    hide Next, Take, TableFor;
  }

  // ---- blocks of tokens ----

  /** The tokens can be written one after the other. */
  ghost predicate AllWritable(tokens: seq<Token>, lengths: seq<int>, distances: seq<int>, out: seq<byte>)
    decreases |tokens|
  {
    tokens == [] || (Writable(tokens[0], lengths, distances, out)
                     && AllWritable(tokens[1..], lengths, distances, Produced(tokens[0], out)))
  }

  /** What they stand for, behind what is there */
  ghost function Expanded(tokens: seq<Token>, lengths: seq<int>, distances: seq<int>, out: seq<byte>): (r: seq<byte>)
    requires AllWritable(tokens, lengths, distances, out)
    ensures |r| >= |out|
    decreases |tokens|
  {
    if tokens == [] then out else Expanded(tokens[1..], lengths, distances, Produced(tokens[0], out))
  }

  /** Their bits, and the code that ends the block */
  ghost function TokensBits(tokens: seq<Token>, lengths: seq<int>, distances: seq<int>, out: seq<byte>): seq<bool>
    requires AllWritable(tokens, lengths, distances, out) && 256 < |lengths| && lengths[256] > 0
    decreases |tokens|
  {
    if tokens == [] then CodeBits(lengths, 256)
    else
      TokenBits(tokens[0], lengths, distances, out)
      + TokensBits(tokens[1..], lengths, distances, Produced(tokens[0], out))
  }

  /** Codes that a block of tokens can use */
  predicate Usable2(lengths: seq<int>, distances: seq<int>) {
    && Lengths(lengths) && Fits(lengths) && 256 < |lengths| <= FIXLCODES && lengths[256] > 0
    && Lengths(distances) && Fits(distances) && |distances| <= MAXDCODES
  }

  /** The program reads the tokens back and does what they say, or runs out of space. */
  lemma {:induction false} TokensAreRead(bits: seq<bool>, p: nat, tokens: seq<Token>, lengths: seq<int>,
      distances: seq<int>, out: seq<byte>, room: Room)
    requires Usable2(lengths, distances) && AllWritable(tokens, lengths, distances, out) && Holds(room, |out|)
    requires Comes(bits, p, TokensBits(tokens, lengths, distances, out))
    ensures p <= |bits| && TableFor(Built(lengths), FIXLCODES) && TableFor(Built(distances), MAXDCODES)
    ensures
      var all := Expanded(tokens, lengths, distances, out);
      Codes(bits, p, Built(lengths), Built(distances), out, room)
      == if Holds(room, |all|) then Ok(p + |TokensBits(tokens, lengths, distances, out)|, all) else Full
    decreases |tokens|
  {
    hide *;
    UsableParts(lengths, distances);
    BuiltFor(lengths);
    BuiltFor(distances);
    ComesFits(bits, p, TokensBits(tokens, lengths, distances, out));
    TokensStep(tokens, lengths, distances, out);
    if tokens == [] {
      NextIs(lengths, FIXLCODES, bits, p, 256);
      CodesEnd(bits, p, Built(lengths), Built(distances), out, room);
      CodeIsLong(lengths, 256);
    } else {
      var t, more := tokens[0], Produced(tokens[0], out);
      var a, b := TokenBits(t, lengths, distances, out), TokensBits(tokens[1..], lengths, distances, more);
      ComesTwo(bits, p, a, b);
      TokenIsRead(bits, p, t, lengths, distances, out, room);
      if Holds(room, |more|) {
        TokensAreRead(bits, p + |a|, tokens[1..], lengths, distances, more, room);
      } else {
        HoldsLess(room, |more|, |Expanded(tokens[1..], lengths, distances, more)|);
      }
    }
  }

  lemma UsableParts(lengths: seq<int>, distances: seq<int>)
    requires Usable2(lengths, distances)
    ensures Lengths(lengths) && Fits(lengths) && 256 < |lengths| <= FIXLCODES && lengths[256] > 0
    ensures Lengths(distances) && Fits(distances) && |distances| <= MAXDCODES
  {
  }

  lemma HoldsLess(room: Room, m: nat, n: nat)
    requires m <= n
    ensures Holds(room, n) ==> Holds(room, m)
  {
  }

  lemma TokensStep(tokens: seq<Token>, lengths: seq<int>, distances: seq<int>, out: seq<byte>)
    requires AllWritable(tokens, lengths, distances, out) && 256 < |lengths| && lengths[256] > 0
    ensures tokens == [] ==>
      TokensBits(tokens, lengths, distances, out) == CodeBits(lengths, 256)
      && Expanded(tokens, lengths, distances, out) == out
    ensures tokens != [] ==>
      var t := tokens[0];
      && Writable(t, lengths, distances, out)
      && var more := Produced(t, out);
      && AllWritable(tokens[1..], lengths, distances, more)
      && TokensBits(tokens, lengths, distances, out)
         == TokenBits(t, lengths, distances, out) + TokensBits(tokens[1..], lengths, distances, more)
      && Expanded(tokens, lengths, distances, out) == Expanded(tokens[1..], lengths, distances, more)
  {
  }

  lemma CodesEnd(bits: seq<bool>, p: nat, lencode: Table, distcode: Table, out: seq<byte>, room: Room)
    requires p <= |bits| && TableFor(lencode, FIXLCODES) && TableFor(distcode, MAXDCODES)
    requires
      var r := Next(lencode, FIXLCODES, bits, p);
      r.Symbol? && r.symbol == 256
    ensures Codes(bits, p, lencode, distcode, out, room) == Ok(Next(lencode, FIXLCODES, bits, p).pos, out)
  {
    hide Next, TableFor;
  }

  /** One token is read, and reading goes on behind it. */
  lemma TokenIsRead(bits: seq<bool>, p: nat, t: Token, lengths: seq<int>, distances: seq<int>, out: seq<byte>,
      room: Room)
    requires Usable2(lengths, distances) && Writable(t, lengths, distances, out)
    requires Comes(bits, p, TokenBits(t, lengths, distances, out))
    ensures TableFor(Built(lengths), FIXLCODES) && TableFor(Built(distances), MAXDCODES)
    ensures p + |TokenBits(t, lengths, distances, out)| <= |bits|
    ensures
      var more := Produced(t, out);
      Codes(bits, p, Built(lengths), Built(distances), out, room)
      == if Holds(room, |more|)
         then Codes(bits, p + |TokenBits(t, lengths, distances, out)|, Built(lengths), Built(distances), more, room)
         else Full
  {
    hide *;
    UsableParts(lengths, distances);
    BuiltFor(lengths);
    BuiltFor(distances);
    ComesFits(bits, p, TokenBits(t, lengths, distances, out));
    match t
    case Literal(b) =>
      LiteralIs(b, lengths, distances, out);
      NextIs(lengths, FIXLCODES, bits, p, b);
      CodesLiteral(bits, p, Built(lengths), Built(distances), out, room);
      CodeIsLong(lengths, b);
    case Copy(len, dist) =>
      CopyFits(len, dist, lengths, distances, out);
      var i, d := LengthIndex(len), DistanceIndex(dist);
      CopyIs(len, dist, i, d, lengths, distances, out);
      HasExtra(len, dist, i, d);
      var a, b := CodeBits(lengths, 257 + i), PairBits(len - LengthBase(i), dist - DistanceBase(d), i, d, distances);
      ComesTwo(bits, p, a, b);
      PairIsLong(len - LengthBase(i), dist - DistanceBase(d), i, d, distances);
      NextIs(lengths, FIXLCODES, bits, p, 257 + i);
      CodeIsLong(lengths, 257 + i);
      CodeIsLong(distances, d);
      PairIsRead(bits, p + lengths[257 + i], len, dist, distances, out);
      CodesPair(bits, p, Built(lengths), Built(distances), out, room);
      CopiedIs(out, dist, len);
  }

  lemma LiteralIs(b: byte, lengths: seq<int>, distances: seq<int>, out: seq<byte>)
    requires Writable(Literal(b), lengths, distances, out)
    ensures b < |lengths| && lengths[b] > 0
    ensures TokenBits(Literal(b), lengths, distances, out) == CodeBits(lengths, b)
    ensures Produced(Literal(b), out) == out + [b]
  {
  }

  lemma CopyIs(len: nat, dist: nat, i: nat, d: nat, lengths: seq<int>, distances: seq<int>, out: seq<byte>)
    requires Writable(Copy(len, dist), lengths, distances, out) && 3 <= len <= 258 && 1 <= dist <= 32768
    requires i == LengthIndex(len) && d == DistanceIndex(dist)
    ensures dist <= |out| && 257 + i < |lengths| && lengths[257 + i] > 0 && d < |distances| && distances[d] > 0
    ensures TokenBits(Copy(len, dist), lengths, distances, out)
      == CodeBits(lengths, 257 + i) + PairBits(len - LengthBase(i), dist - DistanceBase(d), i, d, distances)
  {
    hide LengthIndex, DistanceIndex, LengthBase, DistanceBase, PairBits, CodeBits;
  }

  lemma CopyFits(len: nat, dist: nat, lengths: seq<int>, distances: seq<int>, out: seq<byte>)
    requires Writable(Copy(len, dist), lengths, distances, out)
    ensures 3 <= len <= 258 && 1 <= dist <= 32768
  {
  }

  lemma CodesLiteral(bits: seq<bool>, p: nat, lencode: Table, distcode: Table, out: seq<byte>, room: Room)
    requires p <= |bits| && TableFor(lencode, FIXLCODES) && TableFor(distcode, MAXDCODES)
    requires
      var r := Next(lencode, FIXLCODES, bits, p);
      r.Symbol? && r.symbol < 256
    ensures
      var r := Next(lencode, FIXLCODES, bits, p);
      Codes(bits, p, lencode, distcode, out, room)
      == if Holds(room, |out + [r.symbol as byte]|)
         then Codes(bits, r.pos, lencode, distcode, out + [r.symbol as byte], room) else Full
  {
    hide Next, TableFor;
  }

  lemma CodesPair(bits: seq<bool>, p: nat, lencode: Table, distcode: Table, out: seq<byte>, room: Room)
    requires p <= |bits| && TableFor(lencode, FIXLCODES) && TableFor(distcode, MAXDCODES)
    requires
      var r := Next(lencode, FIXLCODES, bits, p);
      r.Symbol? && r.symbol > 256 && DecodePair(bits, r.pos, r.symbol - 257, distcode, out).Pair?
    ensures
      var r := Next(lencode, FIXLCODES, bits, p);
      var pair := DecodePair(bits, r.pos, r.symbol - 257, distcode, out);
      var more := Copied(out, pair.dist, pair.len);
      Codes(bits, p, lencode, distcode, out, room)
      == if Holds(room, |more|) then Codes(bits, pair.pos, lencode, distcode, more, room) else Full
  {
    hide Next, TableFor, DecodePair, Copied;
  }

  // ---- stored blocks ----

  /** The bits of bytes */
  function DataBits(data: seq<byte>): (r: seq<bool>)
    ensures |r| == 8 * |data|
  {
    if data == [] then [] else LowFirst(data[0], 8) + DataBits(data[1..])
  }

  /** A stored block behind p bits: bits up to the next byte, the length and its complement, the bytes */
  function StoredBits(pad: seq<bool>, data: seq<byte>): seq<bool>
    requires |data| < 0x1_0000
  {
    pad + (LowFirst(|data|, 16) + (LowFirst(0xFFFF - |data|, 16) + DataBits(data)))
  }

  lemma ByteIsRead(bits: seq<bool>, p: nat, b: byte)
    requires Comes(bits, p, LowFirst(b, 8))
    ensures p + 8 <= |bits| && ByteAt(bits, p) == b
  {
    SmallPowers();
    ValueOfLow(b, 8);
  }

  lemma {:induction false} DataIsRead(bits: seq<bool>, p: nat, data: seq<byte>)
    requires Comes(bits, p, DataBits(data))
    ensures p + 8 * |data| <= |bits| && BytesAt(bits, p, |data|) == data
    decreases |data|
  {
    hide *;
    ComesFits(bits, p, DataBits(data));
    if data == [] {
      NoBytes(bits, p);
    } else {
      DataStep(data);
      ComesTwo(bits, p, LowFirst(data[0], 8), DataBits(data[1..]));
      ByteIsRead(bits, p, data[0]);
      DataIsRead(bits, p + 8, data[1..]);
      BytesStep(bits, p, |data|);
    }
  }

  lemma NoBytes(bits: seq<bool>, p: nat)
    requires p <= |bits|
    ensures BytesAt(bits, p, 0) == []
  {
  }

  lemma DataStep(data: seq<byte>)
    requires data != []
    ensures DataBits(data) == LowFirst(data[0], 8) + DataBits(data[1..])
  {
  }

  lemma BytesStep(bits: seq<bool>, p: nat, n: nat)
    requires n > 0 && p + 8 * n <= |bits|
    ensures BytesAt(bits, p, n) == [ByteAt(bits, p)] + BytesAt(bits, p + 8, n - 1)
  {
    hide ByteAt;
    forall i | 1 <= i < n ensures BytesAt(bits, p, n)[i] == BytesAt(bits, p + 8, n - 1)[i - 1] {
      assert p + 8 * i == p + 8 + 8 * (i - 1);
    }
  }

  /** Sixteen bits are two bytes, the lower one first. */
  lemma TwoBytes(n: nat)
    requires n < 0x1_0000
    ensures n % 256 < 256 && n / 256 < 256 && LowFirst(n, 16) == LowFirst(n % 256, 8) + LowFirst(n / 256, 8)
  {
    SmallPowers();
    LowSplits(n, 8, 8, n / 256, n % 256);
  }

  lemma {:induction false} LowSplits(n: nat, a: nat, b: nat, q: nat, r: nat)
    requires n == Pow2(a) * q + r && r < Pow2(a)
    ensures LowFirst(n, a + b) == LowFirst(r, a) + LowFirst(q, b)
    decreases a
  {
    if a == 0 {
      assert LowFirst(r, 0) == [];
    } else {
      assert Pow2(a) * q == 2 * (Pow2(a - 1) * q);
      LowSplits(n / 2, a - 1, b, q, r / 2);
      LowStep(r, a);
      LowStep(n, a + b);
    }
  }

  lemma LowStep(n: nat, k: nat)
    requires k > 0
    ensures LowFirst(n, k) == [n % 2 == 1] + LowFirst(n / 2, k - 1)
  {
  }

  /** A stored block gives back its bytes, or runs out of space. */
  lemma StoredIsRead(bits: seq<bool>, p: nat, pad: seq<bool>, data: seq<byte>, out: seq<byte>, room: Room)
    requires |data| < 0x1_0000 && |pad| < 8 && (p + |pad|) % 8 == 0 && Comes(bits, p, StoredBits(pad, data))
    ensures p <= |bits|
    ensures Stored(bits, p, out, room)
      == if Holds(room, |out + data|) then Ok(p + |StoredBits(pad, data)|, out + data) else Full
  {
    hide *;
    var n, k := |data|, p + |pad|;
    StoredParts(pad, data);
    TwoBytes(n);
    TwoBytes(0xFFFF - n);
    ComesFits(bits, p, StoredBits(pad, data));
    var low, high := LowFirst(n, 16), LowFirst(0xFFFF - n, 16);
    ComesTwo(bits, p, pad, low + (high + DataBits(data)));
    ComesTwo(bits, k, low, high + DataBits(data));
    ComesTwo(bits, k + 16, high, DataBits(data));
    ComesTwo(bits, k, LowFirst(n % 256, 8), LowFirst(n / 256, 8));
    ComesTwo(bits, k + 16, LowFirst((0xFFFF - n) % 256, 8), LowFirst((0xFFFF - n) / 256, 8));
    ByteIsRead(bits, k, n % 256);
    ByteIsRead(bits, k + 8, n / 256);
    ByteIsRead(bits, k + 16, (0xFFFF - n) % 256);
    ByteIsRead(bits, k + 24, (0xFFFF - n) / 256);
    DataIsRead(bits, k + 32, data);
    StoredOf(bits, p, k, n, out, room);
  }

  lemma StoredParts(pad: seq<bool>, data: seq<byte>)
    requires |data| < 0x1_0000
    ensures StoredBits(pad, data)
      == pad + (LowFirst(|data|, 16) + (LowFirst(0xFFFF - |data|, 16) + DataBits(data)))
    ensures |StoredBits(pad, data)| == |pad| + 32 + 8 * |data|
  {
  }

  lemma StoredOf(bits: seq<bool>, p: nat, k: nat, n: nat, out: seq<byte>, room: Room)
    requires p <= k < p + 8 && k % 8 == 0 && n < 0x1_0000 && k + 32 + 8 * n <= |bits|
    requires ByteAt(bits, k) as int == n % 256 && ByteAt(bits, k + 8) as int == n / 256
    requires ByteAt(bits, k + 16) as int == (0xFFFF - n) % 256 && ByteAt(bits, k + 24) as int == (0xFFFF - n) / 256
    ensures Stored(bits, p, out, room)
      == if Holds(room, |out| + n) then Ok(k + 32 + 8 * n, out + BytesAt(bits, k + 32, n)) else Full
  {
    hide ByteAt, BytesAt, Holds;
    assert (p + 7) / 8 * 8 == k;
  }

  // ---- fixed codes ----

  /** The fixed codes, as section 3.2.6 of RFC 1951 lists them */
  lemma FixedCodes(s: nat)
    requires s < 288
    ensures FixedLengths()[s] == if s < 144 then 8 else if s < 256 then 9 else if s < 280 then 7 else 8
    ensures CodeBits(FixedLengths(), s) ==
      if s < 144 then HuffmanCode.HighFirst(48 + s, 8) else if s < 256 then HuffmanCode.HighFirst(400 + (s - 144), 9)
      else if s < 280 then HuffmanCode.HighFirst(s - 256, 7) else HuffmanCode.HighFirst(192 + (s - 280), 8)
  {
    hide HuffmanCode.HighFirst, CountOf, First;
    FixedFirst();
    var lengths, len := FixedLengths(), FixedLengths()[s];
    FixedBelow(s, len);
  }

  lemma FixedFirst()
    ensures First(FixedLengths(), 7) == 0 && First(FixedLengths(), 8) == 48 && First(FixedLengths(), 9) == 400
  {
    hide CountOf, FixedLengths;
    FixedCounts(1);
    FixedCounts(2);
    FixedCounts(3);
    FixedCounts(4);
    FixedCounts(5);
    FixedCounts(6);
    FixedCounts(7);
    FixedCounts(8);
    assert First(FixedLengths(), 4) == 0;
  }

  /** How many symbols below s have a length */
  lemma {:induction false} FixedBelow(s: nat, len: int)
    requires s < 288
    ensures CountOf(FixedLengths()[..s], len) ==
      if len == 8 then (if s < 144 then s else if s < 280 then 144 else s - 136)
      else if len == 9 then (if s < 144 then 0 else if s < 256 then s - 144 else 112)
      else if len == 7 then (if s < 256 then 0 else if s < 280 then s - 256 else 24)
      else 0
  {
    if s > 0 {
      FixedBelow(s - 1, len);
      assert FixedLengths()[..s][..s - 1] == FixedLengths()[..s - 1];
    }
  }

  /** The fixed codes for distances have five bits each. */
  lemma FixedDistanceCodes(d: nat)
    requires d < 30
    ensures FixedDistances()[d] == 5 && CodeBits(FixedDistances(), d) == HuffmanCode.HighFirst(d, 5)
  {
    hide HuffmanCode.HighFirst, CountOf, First;
    FixedDistanceFirst();
    assert FixedDistances()[..d] == Repeat(5, d);
    CountOfRepeat(5, d, 5);
  }

  lemma FixedDistanceFirst()
    ensures First(FixedDistances(), 5) == 0
  {
    hide CountOf, FixedDistances;
    FixedCounts(1);
    FixedCounts(2);
    FixedCounts(3);
    FixedCounts(4);
    assert First(FixedDistances(), 3) == 0;
  }

  lemma FixedAreUsable()
    ensures Usable2(FixedLengths(), FixedDistances())
  {
    FixedCodesFit();
    FixedCounts(0);
    hide CountOf, FirstLeft, Checked, KraftSum, Fits;
    ConstructReturns(FixedLengths());
    ConstructReturns(FixedDistances());
  }
}
