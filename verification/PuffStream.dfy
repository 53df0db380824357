/**
  Whole deflate streams (section 3.2.3 of RFC 1951): stored, fixed and dynamic blocks, one after the other, that puff
  of Shared/puff.c gives back.
 */
module PuffStream {
  import opened Arithmetic
  import opened BitStream
  import opened PuffCode
  import opened PuffInflate
  import opened PuffProperties
  import opened PuffDeflate
  import Puff

  // ---- code lengths ----

  /** How code lengths are written: one by one, by repeating the last one, or as runs of zeros */
  datatype Item = One(len: nat) | Again(n: nat) | Zeros(n: nat) | ManyZeros(n: nat)

  function ItemSymbol(i: Item): nat {
    match i
    case One(len) => len
    case Again(_) => 16
    case Zeros(_) => 17
    case ManyZeros(_) => 18
  }

  /** The item can be written behind these lengths, with such a code for lengths. */
  predicate ItemFits(i: Item, codes: seq<int>, lengths: seq<int>, total: nat) {
    && (match i
        case One(len) => len < 16 && |lengths| < total
        case Again(n) => 3 <= n <= 6 && lengths != [] && |lengths| + n <= total
        case Zeros(n) => 3 <= n <= 10 && |lengths| + n <= total
        case ManyZeros(n) => 11 <= n <= 138 && |lengths| + n <= total)
    && ItemSymbol(i) < |codes| && codes[ItemSymbol(i)] > 0
  }

  function ItemBits(i: Item, codes: seq<int>): seq<bool>
    requires ItemSymbol(i) < |codes| && codes[ItemSymbol(i)] > 0
    requires !i.One? ==> i.n >= 3 && (i.ManyZeros? ==> i.n >= 11)
  {
    CodeBits(codes, ItemSymbol(i)) +
    match i
    case One(_) => []
    case Again(n) => LowFirst(n - 3, 2)
    case Zeros(n) => LowFirst(n - 3, 3)
    case ManyZeros(n) => LowFirst(n - 11, 7)
  }

  function ItemLengths(i: Item, lengths: seq<int>): (r: seq<int>)
    requires i.Again? ==> lengths != []
    ensures |r| >= |lengths|
  {
    match i
    case One(len) => lengths + [len]
    case Again(n) => lengths + Repeat(lengths[|lengths| - 1], n)
    case Zeros(n) => lengths + Repeat(0, n)
    case ManyZeros(n) => lengths + Repeat(0, n)
  }

  /** The items fit one after the other and make up all the lengths. */
  predicate ItemsSpell(items: seq<Item>, codes: seq<int>, lengths: seq<int>, all: seq<int>) {
    if items == [] then lengths == all
    else
      && ItemFits(items[0], codes, lengths, |all|)
      && ItemsSpell(items[1..], codes, ItemLengths(items[0], lengths), all)
  }

  function ItemsBits(items: seq<Item>, codes: seq<int>, lengths: seq<int>, all: seq<int>): seq<bool>
    requires ItemsSpell(items, codes, lengths, all)
  {
    if items == [] then []
    else ItemBits(items[0], codes) + ItemsBits(items[1..], codes, ItemLengths(items[0], lengths), all)
  }

  /** Lengths that are written as numbers, repetitions and runs of zeros are read as written. */
  lemma {:induction false} ItemsAreRead(bits: seq<bool>, p: nat, items: seq<Item>, codes: seq<int>, lengths: seq<int>,
      all: seq<int>, out: seq<byte>)
    requires Lengths(codes) && Fits(codes) && |codes| == 19 && ItemsSpell(items, codes, lengths, all)
    requires Comes(bits, p, ItemsBits(items, codes, lengths, all))
    ensures TableFor(Built(codes), 19) && p + |ItemsBits(items, codes, lengths, all)| <= |bits| && |lengths| <= |all|
    ensures ReadLengths(bits, p, Built(codes), lengths, |all|, out)
      == Lens(all, p + |ItemsBits(items, codes, lengths, all)|)
    decreases |items|
  {
    hide *;
    BuiltFor(codes);
    ComesFits(bits, p, ItemsBits(items, codes, lengths, all));
    ItemsStep(items, codes, lengths, all);
    if items == [] {
      LengthsEnd(bits, p, Built(codes), lengths, out);
    } else {
      var i, more := items[0], ItemLengths(items[0], lengths);
      ComesTwo(bits, p, ItemBits(i, codes), ItemsBits(items[1..], codes, more, all));
      ItemIsRead(bits, p, i, codes, lengths, |all|, out);
      ItemsAreRead(bits, p + |ItemBits(i, codes)|, items[1..], codes, more, all, out);
    }
  }

  lemma ItemsStep(items: seq<Item>, codes: seq<int>, lengths: seq<int>, all: seq<int>)
    requires ItemsSpell(items, codes, lengths, all)
    ensures items == [] ==> lengths == all && ItemsBits(items, codes, lengths, all) == []
    ensures items != [] ==>
      var i := items[0];
      && ItemFits(i, codes, lengths, |all|) && ItemSymbol(i) < |codes| && codes[ItemSymbol(i)] > 0
      && (!i.One? ==> i.n >= 3 && (i.ManyZeros? ==> i.n >= 11)) && (i.Again? ==> lengths != [])
      && ItemsSpell(items[1..], codes, ItemLengths(i, lengths), all)
      && ItemsBits(items, codes, lengths, all)
         == ItemBits(i, codes) + ItemsBits(items[1..], codes, ItemLengths(i, lengths), all)
  {
  }

  lemma LengthsEnd(bits: seq<bool>, p: nat, t: Table, lengths: seq<int>, out: seq<byte>)
    requires p <= |bits| && TableFor(t, 19)
    ensures ReadLengths(bits, p, t, lengths, |lengths|, out) == Lens(lengths, p)
  {
  }

  lemma ItemIsRead(bits: seq<bool>, p: nat, i: Item, codes: seq<int>, lengths: seq<int>, total: nat, out: seq<byte>)
    requires Lengths(codes) && Fits(codes) && |codes| == 19 && ItemFits(i, codes, lengths, total)
    requires Comes(bits, p, ItemBits(i, codes))
    ensures TableFor(Built(codes), 19) && p + |ItemBits(i, codes)| <= |bits|
    ensures (i.Again? ==> lengths != []) && |lengths| < total && |ItemLengths(i, lengths)| <= total
    ensures ReadLengths(bits, p, Built(codes), lengths, total, out)
      == ReadLengths(bits, p + |ItemBits(i, codes)|, Built(codes), ItemLengths(i, lengths), total, out)
  {
    hide Lengths, Fits, Built, CodeBits, Comes, Next, Take, TableFor, LowFirst, ReadLengths, Pow2;
    SmallPowers();
    BuiltFor(codes);
    ComesFits(bits, p, ItemBits(i, codes));
    var s := ItemSymbol(i);
    CodeIsLong(codes, s);
    var rest := match i case One(_) => [] case Again(n) => LowFirst(n - 3, 2) case Zeros(n) => LowFirst(n - 3, 3)
                        case ManyZeros(n) => LowFirst(n - 11, 7);
    ComesTwo(bits, p, CodeBits(codes, s), rest);
    NextIs(codes, 19, bits, p, s);
    match i {
      case One(_) =>
        assert ItemBits(i, codes) == CodeBits(codes, s);
      case Again(n) => TakesValue(bits, p + codes[s], n - 3, 2);
      case Zeros(n) => TakesValue(bits, p + codes[s], n - 3, 3);
      case ManyZeros(n) => TakesValue(bits, p + codes[s], n - 11, 7);
    }
    LengthsGoOn(bits, p, Built(codes), lengths, total, out);
  }

  lemma LengthsGoOn(bits: seq<bool>, p: nat, t: Table, lengths: seq<int>, total: nat, out: seq<byte>)
    requires p <= |bits| && TableFor(t, 19) && |lengths| < total
    requires
      var next := Next(t, 19, bits, p);
      next.Symbol? && (next.symbol >= 16 ==> ReadRepeat(bits, next.pos, next.symbol, lengths, total, out).Lens?)
    ensures
      var next := Next(t, 19, bits, p);
      ReadLengths(bits, p, t, lengths, total, out) ==
      if next.symbol < 16 then ReadLengths(bits, next.pos, t, lengths + [next.symbol], total, out)
      else
        var more := ReadRepeat(bits, next.pos, next.symbol, lengths, total, out);
        ReadLengths(bits, more.pos, t, more.lengths, total, out)
  {
    hide Next, TableFor, ReadRepeat;
  }

  /** The order in which the code for lengths is described: 16, 17, 18, 0, 8, 7, 9, 6, 10 and so on */
  function OrderAt(i: nat): int {
    if i < 3 then 16 + i else if i == 3 then 0 else if i % 2 == 0 then 8 + (i - 4) / 2 else 8 - (i - 3) / 2
  }

  lemma OrderIs(i: nat)
    requires i < 19
    ensures |ORDER| == 19 && ORDER[i] == OrderAt(i) && 0 <= OrderAt(i) < 19
  {
  }

  /** Three bits for each of the first n of them, from number i on */
  function OrderedBits(codes: seq<int>, i: nat, n: nat): (r: seq<bool>)
    requires |codes| == 19 && (forall s | 0 <= s < 19 :: 0 <= codes[s] < 8) && i <= n <= 19
    ensures |r| == 3 * (n - i)
    decreases n - i
  {
    if i == n then []
    else
      OrderIs(i);
      LowFirst(codes[OrderAt(i)], 3) + OrderedBits(codes, i + 1, n)
  }

  /** The lengths that have been read, with zeros for the others */
  predicate Partly(codes: seq<int>, got: seq<int>, i: nat) {
    |codes| == |got| == |ORDER| == 19
    && forall j | 0 <= j < 19 :: ORDER[j] < 19 && got[ORDER[j]] == if j < i then codes[ORDER[j]] else 0
  }

  lemma {:induction false} OrderedAreRead(bits: seq<bool>, p: nat, i: nat, n: nat, codes: seq<int>, got: seq<int>)
    requires |codes| == 19 && (forall s | 0 <= s < 19 :: 0 <= codes[s] < 8) && i <= n <= 19
    requires |got| == 19 && Partly(codes, got, i) && Comes(bits, p, OrderedBits(codes, i, n))
    requires forall j | n <= j < 19 :: 0 <= OrderAt(j) < 19 && codes[OrderAt(j)] == 0
    ensures p + 3 * (n - i) <= |bits| && ReadOrdered(bits, p, i, n, got) == Lens(codes, p + 3 * (n - i))
    decreases n - i
  {
    hide LowFirst, Comes, Take, ORDER, OrderAt, Partly;
    ComesFits(bits, p, OrderedBits(codes, i, n));
    if i == n {
      PartlyIsAll(codes, got, n);
    } else {
      SmallPowers();
      OrderIs(i);
      ComesTwo(bits, p, LowFirst(codes[OrderAt(i)], 3), OrderedBits(codes, i + 1, n));
      TakesValue(bits, p, codes[OrderAt(i)], 3);
      PartlyMore(codes, got, i);
      OrderedAreRead(bits, p + 3, i + 1, n, codes, got[ORDER[i] := codes[OrderAt(i)]]);
    }
  }

  lemma PartlyMore(codes: seq<int>, got: seq<int>, i: nat)
    requires Partly(codes, got, i) && i < 19
    ensures |ORDER| == 19 && ORDER[i] < 19 && 0 <= OrderAt(i) < 19 && |codes| == |got| == 19
    ensures Partly(codes, got[ORDER[i] := codes[OrderAt(i)]], i + 1)
  {
    OrderIs(i);
    OrderIsPermutation();
    hide ORDER, PLACES;
    var more := got[ORDER[i] := codes[OrderAt(i)]];
    forall j | 0 <= j < 19 ensures more[ORDER[j]] == if j < i + 1 then codes[ORDER[j]] else 0 {
      assert PLACES[ORDER[j]] == j && PLACES[ORDER[i]] == i;
    }
  }

  lemma PartlyIsAll(codes: seq<int>, got: seq<int>, n: nat)
    requires Partly(codes, got, n) && n <= 19 && |codes| == 19
    requires forall j | n <= j < 19 :: 0 <= OrderAt(j) < 19 && codes[OrderAt(j)] == 0
    ensures got == codes
  {
    OrderIsPermutation();
    hide ORDER, PLACES, OrderAt;
    forall k | 0 <= k < 19 ensures got[k] == codes[k] {
      OrderIs(PLACES[k]);
      assert ORDER[PLACES[k]] == k;
    }
  }

  lemma NothingRead(codes: seq<int>)
    requires |codes| == 19
    ensures Partly(codes, Repeat(0, 19), 0)
  {
    OrderIsBelow();
    hide ORDER;
  }

  // ---- dynamic blocks ----

  /** A description of two codes: the code for lengths, of which n are given, and the items that spell both */
  datatype Header = Header(n: nat, codes: seq<int>, items: seq<Item>, lengths: seq<int>, distances: seq<int>)

  /** It can be written. */
  predicate Spells(h: Header) {
    && 4 <= h.n <= 19 && |h.codes| == 19 && (forall s | 0 <= s < 19 :: 0 <= h.codes[s] < 8)
    && (forall j | h.n <= j < 19 :: 0 <= OrderAt(j) < 19 && h.codes[OrderAt(j)] == 0)
    && CountOf(h.codes, 0) != 19 && Checked(h.codes) == 0
    && 257 <= |h.lengths| <= 286 && 1 <= |h.distances| <= 30
    && ItemsSpell(h.items, h.codes, [], h.lengths + h.distances)
  }

  /** It can be used, also for the end of the block. */
  predicate Describes(h: Header) {
    && Spells(h) && Lengths(h.lengths) && Lengths(h.distances) && Usable(h.lengths) && Usable(h.distances)
    && h.lengths[256] > 0
  }

  function HeaderBits(h: Header): seq<bool>
    requires Spells(h)
  {
    LowFirst(|h.lengths| - 257, 5) + (LowFirst(|h.distances| - 1, 5) + (LowFirst(h.n - 4, 4)
    + (OrderedBits(h.codes, 0, h.n) + ItemsBits(h.items, h.codes, [], h.lengths + h.distances))))
  }

  lemma ValueComes(bits: seq<bool>, p: nat, v: nat, n: nat)
    requires Comes(bits, p, LowFirst(v, n)) && v < Pow2(n)
    ensures p + n <= |bits| && LowValue(bits[p..p + n]) == v
  {
    ValueOfLow(v, n);
  }

  /** The two codes that are described at the start of a dynamic block are read as described. */
  lemma HeaderIsRead(bits: seq<bool>, p: nat, h: Header, out: seq<byte>)
    requires Describes(h) && Comes(bits, p, HeaderBits(h))
    ensures p + |HeaderBits(h)| <= |bits|
    ensures ReadTables(bits, p, out) == Tables(h.lengths, h.distances, p + |HeaderBits(h)|)
  {
    BothAreRead(bits, p, h, out);
    hide HeaderBits, Spells, ReadTables, Usable;
    TablesAreRead(bits, p, h.lengths, h.distances, p + |HeaderBits(h)|, out);
  }

  lemma BothAreRead(bits: seq<bool>, p: nat, h: Header, out: seq<byte>)
    requires Spells(h) && Comes(bits, p, HeaderBits(h))
    ensures p + |HeaderBits(h)| <= |bits|
    ensures ReadBoth(bits, p, out) == Both(|h.lengths|, h.lengths + h.distances, p + |HeaderBits(h)|)
  {
    hide *;
    HeaderParts(h);
    ComesFits(bits, p, HeaderBits(h));
    var a, b, c := LowFirst(|h.lengths| - 257, 5), LowFirst(|h.distances| - 1, 5), LowFirst(h.n - 4, 4);
    var all := h.lengths + h.distances;
    var d, e := OrderedBits(h.codes, 0, h.n), ItemsBits(h.items, h.codes, [], all);
    SmallPowers();
    ComesTwo(bits, p, a, b + (c + (d + e)));
    ComesTwo(bits, p + 5, b, c + (d + e));
    ComesTwo(bits, p + 10, c, d + e);
    ComesTwo(bits, p + 14, d, e);
    ValueComes(bits, p, |h.lengths| - 257, 5);
    ValueComes(bits, p + 5, |h.distances| - 1, 5);
    ValueComes(bits, p + 10, h.n - 4, 4);
    NothingRead(h.codes);
    OrderedAreRead(bits, p + 14, 0, h.n, h.codes, Repeat(0, 19));
    ItemsAreRead(bits, p + 14 + |d|, h.items, h.codes, [], all, out);
    BothIsRead(bits, p, h.codes, |h.lengths|, |h.distances|, h.n, all, p + 14 + |d|, p + 14 + |d| + |e|, out);
  }

  lemma HeaderParts(h: Header)
    requires Spells(h)
    ensures 4 <= h.n <= 19 && |h.codes| == 19 && (forall s | 0 <= s < 19 :: 0 <= h.codes[s] < 8)
    ensures forall j | h.n <= j < 19 :: 0 <= OrderAt(j) < 19 && h.codes[OrderAt(j)] == 0
    ensures Lengths(h.codes) && Fits(h.codes) && CountOf(h.codes, 0) != 19 && Checked(h.codes) == 0
    ensures 257 <= |h.lengths| <= 286 && 1 <= |h.distances| <= 30 && |h.lengths + h.distances| <= 316
    ensures ItemsSpell(h.items, h.codes, [], h.lengths + h.distances)
    ensures HeaderBits(h)
      == LowFirst(|h.lengths| - 257, 5) + (LowFirst(|h.distances| - 1, 5) + (LowFirst(h.n - 4, 4)
         + (OrderedBits(h.codes, 0, h.n) + ItemsBits(h.items, h.codes, [], h.lengths + h.distances))))
  {
    hide CountOf, Checked, Fits, ItemsSpell, ItemsBits, OrderedBits, LowFirst, OrderAt, KraftSum, Lengths;
    CodesAreLengths(h.codes);
    ConstructReturns(h.codes);
  }

  lemma CodesAreLengths(codes: seq<int>)
    requires forall s | 0 <= s < |codes| :: 0 <= codes[s] < 8
    ensures Lengths(codes)
  {
  }

  lemma BothIsRead(bits: seq<bool>, p: nat, codes: seq<int>, nlen: nat, ndist: nat, n: nat, all: seq<int>, q: nat,
      q': nat, out: seq<byte>)
    requires p + 14 <= q <= |bits| && |codes| == 19 && 4 <= n <= 19
    requires 257 <= nlen <= 286 && 1 <= ndist <= 30 && |all| == nlen + ndist
    requires LowValue(bits[p..p + 5]) == nlen - 257 && LowValue(bits[p + 5..p + 10]) == ndist - 1
    requires LowValue(bits[p + 10..p + 14]) == n - 4
    requires ReadOrdered(bits, p + 14, 0, n, Repeat(0, 19)) == Lens(codes, q)
    requires Checked(codes) == 0 && CountOf(codes, 0) != 19
    requires TableFor(Built(codes), 19) && ReadLengths(bits, q, Built(codes), [], nlen + ndist, out) == Lens(all, q')
    ensures ReadBoth(bits, p, out) == Both(nlen, all, q')
  {
    hide LowValue, ReadOrdered, ReadLengths, Checked, CountOf, TableFor, Built;
  }

  lemma TablesAreRead(bits: seq<bool>, p: nat, lengths: seq<int>, distances: seq<int>, q: nat, out: seq<byte>)
    requires p <= |bits| && ReadBoth(bits, p, out) == Both(|lengths|, lengths + distances, q)
    requires Usable(lengths) && Usable(distances)
    ensures ReadTables(bits, p, out) == Tables(lengths, distances, q)
  {
    hide ReadBoth, Usable;
    assert (lengths + distances)[..|lengths|] == lengths && (lengths + distances)[|lengths|..] == distances;
  }

  /** Codes that pass the program's check do not ask for too many codes. */
  lemma UsableFits(lengths: seq<int>)
    requires Lengths(lengths) && Usable(lengths)
    ensures Fits(lengths)
  {
    hide FirstLeft, KraftSum, NeverNegative;
    if CountOf(lengths, 0) == |lengths| {
      NoneFits(lengths, 0);
    } else {
      hide CountOf, Fits;
      ConstructReturns(lengths);
    }
  }

  lemma {:induction false} NoneFits(lengths: seq<int>, len: nat)
    requires CountOf(lengths, 0) == |lengths| && len <= MAXBITS
    ensures Left(lengths, len) > 0 && NeverNegative(lengths, len)
    decreases MAXBITS - len
  {
    hide CountOf;
    NoneLeftOf(lengths, len);
    if len < MAXBITS { NoneFits(lengths, len + 1); }
  }

  lemma {:induction false} NoneLeftOf(lengths: seq<int>, len: nat)
    requires CountOf(lengths, 0) == |lengths|
    ensures Left(lengths, len) == Pow2(len)
  {
    hide CountOf;
    if len > 0 {
      NoneLeftOf(lengths, len - 1);
      Puff.NoneOfLength(lengths, len);
    }
  }

  // ---- streams ----

  datatype Block =
    | StoredData(pad: seq<bool>, data: seq<byte>)
    | FixedTokens(tokens: seq<Token>)
    | DynamicTokens(header: Header, tokens: seq<Token>)

  /** The block can be written behind p bits, its first three included, and this output. */
  ghost predicate BlockFits(b: Block, p: nat, out: seq<byte>) {
    match b
    case StoredData(pad, data) => |data| < 0x1_0000 && |pad| < 8 && (p + |pad|) % 8 == 0
    case FixedTokens(tokens) => AllWritable(tokens, FixedLengths(), FixedDistances(), out)
    case DynamicTokens(h, tokens) => Describes(h) && AllWritable(tokens, h.lengths, h.distances, out)
  }

  ghost function BlockData(b: Block, p: nat, out: seq<byte>): (r: seq<byte>)
    requires BlockFits(b, p, out)
    ensures |r| >= |out|
  {
    match b
    case StoredData(_, data) => out + data
    case FixedTokens(tokens) => Expanded(tokens, FixedLengths(), FixedDistances(), out)
    case DynamicTokens(h, tokens) => Expanded(tokens, h.lengths, h.distances, out)
  }

  ghost function BlockBits(b: Block, p: nat, out: seq<byte>): seq<bool>
    requires BlockFits(b, p, out)
  {
    match b
    case StoredData(pad, data) => StoredBits(pad, data)
    case FixedTokens(tokens) =>
      FixedAreUsable();
      TokensBits(tokens, FixedLengths(), FixedDistances(), out)
    case DynamicTokens(h, tokens) => HeaderBits(h) + TokensBits(tokens, h.lengths, h.distances, out)
  }

  function Kind(b: Block): nat {
    if b.StoredData? then 0 else if b.FixedTokens? then 1 else 2
  }

  /** A block of any type gives its data and ends right behind itself, or runs out of space. */
  lemma BlockIsRead(bits: seq<bool>, p: nat, b: Block, out: seq<byte>, room: Room)
    requires BlockFits(b, p, out) && Comes(bits, p, BlockBits(b, p, out)) && Holds(room, |out|)
    ensures p + |BlockBits(b, p, out)| <= |bits|
    ensures
      var all := BlockData(b, p, out);
      PuffInflate.Block(bits, p, Kind(b), out, room)
      == if Holds(room, |all|) then Ok(p + |BlockBits(b, p, out)|, all) else Full
  {
    hide AllWritable, Expanded, TokensBits, HeaderBits, StoredBits, Spells, Comes, Stored, Codes, ReadTables, TableFor,
      Built, Usable2, FixedLengths, FixedDistances, Fits;
    ComesFits(bits, p, BlockBits(b, p, out));
    match b
    case StoredData(pad, data) => StoredIsRead(bits, p, pad, data, out, room);
    case FixedTokens(tokens) =>
      FixedAreUsable();
      UsableParts(FixedLengths(), FixedDistances());
      TokensAreRead(bits, p, tokens, FixedLengths(), FixedDistances(), out, room);
    case DynamicTokens(h, tokens) =>
      HeaderIsUsable(h);
      UsableParts(h.lengths, h.distances);
      ComesTwo(bits, p, HeaderBits(h), TokensBits(tokens, h.lengths, h.distances, out));
      HeaderIsRead(bits, p, h, out);
      TokensAreRead(bits, p + |HeaderBits(h)|, tokens, h.lengths, h.distances, out, room);
  }

  lemma HeaderIsUsable(h: Header)
    requires Describes(h)
    ensures Usable2(h.lengths, h.distances)
  {
    hide ItemsSpell, Usable, Fits, CountOf, Checked, OrderAt;
    UsableFits(h.lengths);
    UsableFits(h.distances);
  }

  /** A place between two blocks: the bits that come before it, and what they stand for */
  datatype Place = Place(p: nat, out: seq<byte>)

  ghost function After(b: Block, at: Place): (r: Place)
    requires BlockFits(b, at.p + 3, at.out)
    ensures |r.out| >= |at.out|
  {
    Place(at.p + 3 + |BlockBits(b, at.p + 3, at.out)|, BlockData(b, at.p + 3, at.out))
  }

  /** Blocks that can be written one after the other, at least one */
  ghost predicate StreamFits(blocks: seq<Block>, at: Place)
    decreases |blocks|
  {
    && blocks != [] && BlockFits(blocks[0], at.p + 3, at.out)
    && (|blocks| > 1 ==> StreamFits(blocks[1..], After(blocks[0], at)))
  }

  /** What they stand for */
  ghost function StreamData(blocks: seq<Block>, at: Place): (r: seq<byte>)
    requires StreamFits(blocks, at)
    decreases |blocks|
  {
    if |blocks| == 1 then After(blocks[0], at).out else StreamData(blocks[1..], After(blocks[0], at))
  }

  /** Each block starts with a bit that tells whether it is the last one, and two for its kind. */
  ghost function StreamBits(blocks: seq<Block>, at: Place): seq<bool>
    requires StreamFits(blocks, at)
    decreases |blocks|
  {
    [|blocks| == 1] + (LowFirst(Kind(blocks[0]), 2) + (BlockBits(blocks[0], at.p + 3, at.out) + Rest(blocks, at)))
  }

  ghost function Rest(blocks: seq<Block>, at: Place): seq<bool>
    requires StreamFits(blocks, at)
    decreases |blocks|, 0
  {
    if |blocks| == 1 then [] else StreamBits(blocks[1..], After(blocks[0], at))
  }

  lemma {:induction false} DataGrows(blocks: seq<Block>, at: Place)
    requires StreamFits(blocks, at)
    ensures |StreamData(blocks, at)| >= |at.out|
    decreases |blocks|
  {
    hide BlockFits, After;
    if |blocks| > 1 { DataGrows(blocks[1..], After(blocks[0], at)); }
  }

  /** Inflating gives back what the blocks stand for, up to the end of the last block, or runs out of space. */
  lemma {:induction false} StreamIsRead(bits: seq<bool>, at: Place, blocks: seq<Block>, room: Room)
    requires StreamFits(blocks, at) && Comes(bits, at.p, StreamBits(blocks, at)) && Holds(room, |at.out|)
    ensures at.p + |StreamBits(blocks, at)| <= |bits|
    ensures
      var all := StreamData(blocks, at);
      Inflate(bits, at.p, at.out, room)
      == if Holds(room, |all|) then Ok(at.p + |StreamBits(blocks, at)|, all) else Full
    decreases |blocks|
  {
    hide *;
    StreamStep(blocks, at);
    var b, last, p := blocks[0], |blocks| == 1, at.p;
    var part, rest, next := BlockBits(b, p + 3, at.out), Rest(blocks, at), After(b, at);
    ComesFits(bits, p, StreamBits(blocks, at));
    ComesTwo(bits, p, [last], LowFirst(Kind(b), 2) + (part + rest));
    ComesTwo(bits, p + 1, LowFirst(Kind(b), 2), part + rest);
    ComesTwo(bits, p + 3, part, rest);
    FirstComes(bits, p, last);
    KindComes(bits, p + 1, b);
    BlockIsRead(bits, p + 3, b, at.out, room);
    InflateOne(bits, p, at.out, room);
    if !last {
      DataGrows(blocks[1..], next);
      HoldsLess(room, |next.out|, |StreamData(blocks[1..], next)|);
      if Holds(room, |next.out|) { StreamIsRead(bits, next, blocks[1..], room); }
    }
  }

  lemma StreamStep(blocks: seq<Block>, at: Place)
    requires StreamFits(blocks, at)
    ensures blocks != [] && BlockFits(blocks[0], at.p + 3, at.out)
    ensures
      var b := blocks[0];
      && After(b, at) == Place(at.p + 3 + |BlockBits(b, at.p + 3, at.out)|, BlockData(b, at.p + 3, at.out))
      && StreamBits(blocks, at)
         == [|blocks| == 1] + (LowFirst(Kind(b), 2) + (BlockBits(b, at.p + 3, at.out) + Rest(blocks, at)))
    ensures |blocks| == 1 ==> Rest(blocks, at) == [] && StreamData(blocks, at) == After(blocks[0], at).out
    ensures |blocks| > 1 ==>
      var next := After(blocks[0], at);
      && StreamFits(blocks[1..], next) && Rest(blocks, at) == StreamBits(blocks[1..], next)
      && StreamData(blocks, at) == StreamData(blocks[1..], next)
  {
    hide BlockFits, BlockBits, BlockData, LowFirst, Kind;
  }

  lemma InflateOne(bits: seq<bool>, p: nat, out: seq<byte>, room: Room)
    requires p + 3 <= |bits|
    ensures
      var block := PuffInflate.Block(bits, p + 3, LowValue(bits[p + 1..p + 3]), out, room);
      Inflate(bits, p, out, room)
      == if block.Ok? && !bits[p] then Inflate(bits, block.pos, block.out, room) else block
  {
    hide PuffInflate.Block, LowValue;
  }

  lemma FirstComes(bits: seq<bool>, p: nat, v: bool)
    requires Comes(bits, p, [v])
    ensures p < |bits| && bits[p] == v
  {
  }

  lemma KindComes(bits: seq<bool>, p: nat, b: Block)
    requires Comes(bits, p, LowFirst(Kind(b), 2))
    ensures p + 2 <= |bits| && LowValue(bits[p..p + 2]) == Kind(b)
  {
    SmallPowers();
    ValueComes(bits, p, Kind(b), 2);
  }

  // ---- puff ----

  function Start(): Place {
    Place(0, [])
  }

  /** puff gives back what was written as any stream of blocks, with the size of the output and of the input that was
      used; with less space it fails with 1. */
  method Reinflate(dest: array?<byte>, destlen: nat, source: array<byte>, sourcelen: nat, ghost blocks: seq<Block>)
    returns (err: int, destlen': nat, sourcelen': nat)
    requires sourcelen <= source.Length && (dest != null ==> dest != source && destlen <= dest.Length)
    requires StreamFits(blocks, Start())
    requires Comes(Bits(source[..sourcelen], 0, 8 * sourcelen), 0, StreamBits(blocks, Start()))
    modifies dest
    ensures
      var all := StreamData(blocks, Start());
      if dest == null || |all| <= destlen
      then
        && err == 0 && destlen' == |all| && sourcelen' == (|StreamBits(blocks, Start())| + 7) / 8
        && (dest != null ==> destlen' <= dest.Length && dest[..destlen'] == all)
      else err == 1
  {
    hide Bits, Inflate, StreamBits, StreamData, StreamFits, Comes, MeetsEmptyCode;
    ghost var mode := if dest == null then Scanning else Space(destlen);
    ghost var bits := Bits(source[..sourcelen], 0, 8 * sourcelen);
    StreamIsRead(bits, Start(), blocks, mode);
    UndefinedIsEmptyCode(bits, 0, [], mode);
    err, destlen', sourcelen' := Puff.Puff(dest, destlen, source, sourcelen);
  }

  // ---- any data can be written ----

  function Literals(data: seq<byte>): (r: seq<Token>)
    ensures |r| == |data|
  {
    if data == [] then [] else [Literal(data[0])] + Literals(data[1..])
  }

  lemma {:induction false} LiteralsAreWritable(data: seq<byte>, out: seq<byte>)
    ensures AllWritable(Literals(data), FixedLengths(), FixedDistances(), out)
    ensures Expanded(Literals(data), FixedLengths(), FixedDistances(), out) == out + data
    decreases |data|
  {
    hide FixedLengths, FixedDistances, TokensBits, CodeBits;
    if data == [] {
      assert out + data == out;
    } else {
      var more := out + [data[0]];
      FixedCodes(data[0]);
      LiteralsAreWritable(data[1..], more);
      FirstLiteral(data);
      hide Literals;
      assert more + data[1..] == out + data;
    }
  }

  lemma FirstLiteral(data: seq<byte>)
    requires data != []
    ensures Literals(data)[1..] == Literals(data[1..]) && Literals(data)[0] == Literal(data[0])
  {
  }

  /** Every string of bytes is the data of a stream: of one with the fixed codes, and up to 65535 bytes also of one
      stored block. */
  lemma AnyDataFits(data: seq<byte>)
    ensures StreamFits([FixedTokens(Literals(data))], Start())
    ensures StreamData([FixedTokens(Literals(data))], Start()) == data
    ensures |data| < 0x1_0000 ==>
      var stored := [StoredData(seq(5, _ => false), data)];
      StreamFits(stored, Start()) && StreamData(stored, Start()) == data
  {
    hide *;
    LiteralsAreWritable(data, []);
    FixedIsOne(data);
    OneBlock(FixedTokens(Literals(data)));
    if |data| < 0x1_0000 {
      StoredIsOne(data);
      OneBlock(StoredData(seq(5, _ => false), data));
    }
  }

  lemma FixedIsOne(data: seq<byte>)
    requires AllWritable(Literals(data), FixedLengths(), FixedDistances(), [])
    requires Expanded(Literals(data), FixedLengths(), FixedDistances(), []) == [] + data
    ensures BlockFits(FixedTokens(Literals(data)), 3, []) && BlockData(FixedTokens(Literals(data)), 3, []) == data
  {
    hide AllWritable, Expanded, Literals, FixedLengths, FixedDistances;
    assert [] + data == data;
  }

  lemma StoredIsOne(data: seq<byte>)
    requires |data| < 0x1_0000
    ensures
      var b := StoredData(seq(5, _ => false), data);
      BlockFits(b, 3, []) && BlockData(b, 3, []) == data
  {
    assert [] + data == data;
  }

  lemma OneBlock(b: Block)
    requires BlockFits(b, 3, [])
    ensures StreamFits([b], Start()) && StreamData([b], Start()) == BlockData(b, 3, [])
  {
    hide BlockFits, BlockData, BlockBits;
  }

  /** There are dynamic blocks: here is the description of one with the end code only. */
  lemma HeaderExists()
    ensures Describes(Header(18, [0, 1] + Repeat(0, 16) + [1], [ManyZeros(138), ManyZeros(118), One(1), One(1)],
      Repeat(0, 256) + [1], [1]))
  {
    hide CountOf, Checked, Usable, ItemsSpell, OrderAt, Lengths, Repeat;
    var codes, lengths := [0, 1] + Repeat(0, 16) + [1], Repeat(0, 256) + [1];
    TwoCodes(codes);
    OneCode(lengths, 256);
    assert Repeat(0, 0) + [1] == [1];
    OneCode([1], 0);
    ItemsExist(codes, lengths);
    LastIsFifteen();
  }

  lemma LastIsFifteen()
    ensures OrderAt(18) == 15
  {
  }

  lemma TwoCodes(codes: seq<int>)
    requires codes == [0, 1] + Repeat(0, 16) + [1]
    ensures |codes| == 19 && CountOf(codes, 0) == 17 && Checked(codes) == 0
  {
    hide CountOf;
    forall len ensures CountOf(codes, len) == if len == 0 then 17 else if len == 1 then 2 else 0 {
      hide CountOf;
      CountOfJoin([0, 1] + Repeat(0, 16), [1], len);
      CountOfJoin([0, 1], Repeat(0, 16), len);
      CountOfJoin([0], [1], len);
      CountOfRepeat(0, 16, len);
      CountOfOne(0, len);
      CountOfOne(1, len);
      assert [0, 1] == [0] + [1];
    }
    CompleteLeft(codes, 1);
  }

  lemma CountOfOne(v: int, len: int)
    ensures CountOf([v], len) == if len == v then 1 else 0
  {
    assert [v][..0] == [];
  }

  lemma {:induction false} CompleteLeft(codes: seq<int>, len: nat)
    requires 1 <= len <= MAXBITS + 1
    requires forall l | l >= 1 :: CountOf(codes, l) == if l == 1 then 2 else 0
    ensures len <= MAXBITS ==> Left(codes, len) == 0
    ensures FirstLeft(codes, len) == 0
    decreases MAXBITS + 1 - len
  {
    hide CountOf;
    LeftIsZero(codes, if len <= MAXBITS then len else MAXBITS);
    if len <= MAXBITS { CompleteLeft(codes, len + 1); }
  }

  lemma {:induction false} LeftIsZero(codes: seq<int>, len: nat)
    requires 1 <= len && forall l | l >= 1 :: CountOf(codes, l) == if l == 1 then 2 else 0
    ensures Left(codes, len) == 0
  {
    hide CountOf;
    if len > 1 { LeftIsZero(codes, len - 1); } else { assert Left(codes, 0) == 1; }
  }

  /** A code with one symbol, of length 1 */
  lemma OneCode(lengths: seq<int>, n: nat)
    requires lengths == Repeat(0, n) + [1]
    ensures Usable(lengths) && Lengths(lengths)
  {
    forall len ensures CountOf(lengths, len) == if len == 0 then n else if len == 1 then 1 else 0 {
      CountOfJoin(Repeat(0, n), [1], len);
      CountOfRepeat(0, n, len);
      CountOfOne(1, len);
      hide CountOf;
    }
    hide CountOf;
    OneLeft(lengths, 1);
  }

  lemma {:induction false} OneLeft(lengths: seq<int>, len: nat)
    requires 1 <= len <= MAXBITS + 1
    requires forall l | l >= 1 :: CountOf(lengths, l) == if l == 1 then 1 else 0
    ensures FirstLeft(lengths, len) > 0
    decreases MAXBITS + 1 - len
  {
    hide CountOf;
    LeftIsPositive(lengths, if len <= MAXBITS then len else MAXBITS);
    if len <= MAXBITS { OneLeft(lengths, len + 1); }
  }

  lemma {:induction false} LeftIsPositive(lengths: seq<int>, len: nat)
    requires 1 <= len && forall l | l >= 1 :: CountOf(lengths, l) == if l == 1 then 1 else 0
    ensures Left(lengths, len) > 0
  {
    hide CountOf;
    if len > 1 { LeftIsPositive(lengths, len - 1); } else { assert Left(lengths, 0) == 1; }
  }

  lemma ItemsExist(codes: seq<int>, lengths: seq<int>)
    requires |codes| == 19 && codes[1] > 0 && codes[18] > 0 && lengths == Repeat(0, 256) + [1]
    ensures ItemsSpell([ManyZeros(138), ManyZeros(118), One(1), One(1)], codes, [], lengths + [1])
  {
    var a, b := Repeat(0, 138), Repeat(0, 256);
    var all := lengths + [1];
    assert [] + a == a && a + Repeat(0, 118) == b && b + [1] + [1] == all;
    ItemNext([], codes, all, all);
    ItemNext([One(1)], codes, lengths, all);
    ItemNext([One(1), One(1)], codes, b, all);
    ItemNext([ManyZeros(118), One(1), One(1)], codes, a, all);
    ItemNext([ManyZeros(138), ManyZeros(118), One(1), One(1)], codes, [], all);
  }

  lemma ItemNext(items: seq<Item>, codes: seq<int>, lengths: seq<int>, all: seq<int>)
    requires items == [] ==> lengths == all
    requires items != [] ==>
      && ItemFits(items[0], codes, lengths, |all|)
      && ItemsSpell(items[1..], codes, ItemLengths(items[0], lengths), all)
    ensures ItemsSpell(items, codes, lengths, all)
  {
    hide ItemFits, ItemLengths;
  }
}
