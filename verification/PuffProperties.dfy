/**
  Properties of whole inflate runs (Shared/puff.c): only the input that is consumed matters, and
  scanning gives what writing gives when there is space.
 */
module PuffProperties {
  import opened Arithmetic
  import opened BitStream
  import opened PuffCode
  import opened PuffInflate

  /** The streams are the same up to q. */
  predicate Agree(a: seq<bool>, b: seq<bool>, q: nat) {
    q <= |a| && q <= |b| && a[..q] == b[..q]
  }

  lemma AgreeAt(a: seq<bool>, b: seq<bool>, q: nat, p: nat, r: nat)
    requires Agree(a, b, q) && p <= r <= q
    ensures Agree(a, b, r) && a[p..r] == b[p..r]
    ensures p < r ==> a[p] == b[p]
  {
    assert a[..r] == a[..q][..r] && b[..r] == b[..q][..r];
    assert a[p..r] == a[..q][p..r] && b[p..r] == b[..q][p..r];
    if p < r {
      assert a[p] == a[p..r][0] && b[p] == b[p..r][0];
    }
  }

  lemma {:induction false} ScanIsLocal(t: Table, a: seq<bool>, b: seq<bool>, p: nat, len: nat, code: nat, first: nat,
          q: nat)
    requires Proper(t) && p <= |a| && 1 <= len <= MAXBITS + 1 && first <= code && Agree(a, b, q)
    requires var r := Scan(t, a, p, len, code, first); !r.Starved? && r.pos <= q
    ensures p <= |b| && Scan(t, b, p, len, code, first) == Scan(t, a, p, len, code, first)
    decreases MAXBITS + 1 - len
  {
    hide Sum;
    SumIsIndex(t, len);
    if len <= MAXBITS && p < |a| {
      AgreeAt(a, b, q, p, p + 1);
      var next := code + if a[p] then 1 else 0;
      if next >= first + t.count[len] {
        ScanIsLocal(t, a, b, p + 1, len + 1, 2 * next, 2 * (first + t.count[len]), q);
      }
    }
  }

  lemma SumIsIndex(t: Table, len: nat)
    requires Proper(t) && 1 <= len <= MAXBITS + 1
    ensures Sum(t.count, len) >= 0
    ensures len <= MAXBITS ==> Sum(t.count, len) + t.count[len] <= |t.symbol|
  {
    SumGrows(t.count, len, MAXBITS + 1);
    if len <= MAXBITS { SumGrows(t.count, len + 1, MAXBITS + 1); }
  }

  lemma NextIsLocal(t: Table, n: nat, a: seq<bool>, b: seq<bool>, p: nat, q: nat)
    requires TableFor(t, n) && p <= |a| && Agree(a, b, q)
    requires var r := Next(t, n, a, p); !r.Starved? && r.pos <= q
    ensures p <= |b| && Next(t, n, b, p) == Next(t, n, a, p)
  {
    ScanIsLocal(t, a, b, p, 1, 0, 0, q);
  }

  lemma TakeIsLocal(a: seq<bool>, b: seq<bool>, p: nat, need: nat, q: nat)
    requires Agree(a, b, q) && p + need <= q
    ensures Take(a, p, need).Taken? && Take(b, p, need) == Take(a, p, need)
  {
    AgreeAt(a, b, q, p, p + need);
  }

  lemma StoredIsLocal(a: seq<bool>, b: seq<bool>, p: nat, out: seq<byte>, room: Room)
    requires var r := Stored(a, p, out, room); r.Ok? && Agree(a, b, r.pos)
    ensures Stored(b, p, out, room) == Stored(a, p, out, room)
  {
    hide ByteAt, BytesAt, LowValue;
    var r, k := Stored(a, p, out, room), (p + 7) / 8 * 8;
    ByteIsLocal(a, b, k, r.pos);
    ByteIsLocal(a, b, k + 8, r.pos);
    ByteIsLocal(a, b, k + 16, r.pos);
    ByteIsLocal(a, b, k + 24, r.pos);
    BytesAreLocal(a, b, k + 32, ByteAt(a, k) as int + 256 * ByteAt(a, k + 8), r.pos);
  }

  lemma ByteIsLocal(a: seq<bool>, b: seq<bool>, p: nat, q: nat)
    requires Agree(a, b, q) && p + 8 <= q
    ensures ByteAt(a, p) == ByteAt(b, p)
  {
    hide LowValue;
    AgreeAt(a, b, q, p, p + 8);
  }

  lemma BytesAreLocal(a: seq<bool>, b: seq<bool>, p: nat, n: nat, q: nat)
    requires Agree(a, b, q) && p + 8 * n <= q
    ensures BytesAt(a, p, n) == BytesAt(b, p, n)
  {
    forall i | 0 <= i < n ensures BytesAt(a, p, n)[i] == BytesAt(b, p, n)[i] {
      AgreeAt(a, b, q, p + 8 * i, p + 8 * i + 8);
    }
  }

  lemma DecodePairIsLocal(a: seq<bool>, b: seq<bool>, p: nat, i: nat, distcode: Table, out: seq<byte>)
    requires p <= |a| && TableFor(distcode, MAXDCODES)
    requires var r := DecodePair(a, p, i, distcode, out); r.Pair? && Agree(a, b, r.pos)
    ensures p <= |b| && DecodePair(b, p, i, distcode, out) == DecodePair(a, p, i, distcode, out)
  {
    hide Next, LowValue;
    TableSizes();
    var q := DecodePair(a, p, i, distcode, out).pos;
    TakeIsLocal(a, b, p, LEXT[i], q);
    NextIsLocal(distcode, MAXDCODES, a, b, p + LEXT[i], q);
    var d := Next(distcode, MAXDCODES, a, p + LEXT[i]);
    TakeIsLocal(a, b, d.pos, DEXT[d.symbol], q);
  }

  lemma {:induction false} CodesAreLocal(a: seq<bool>, b: seq<bool>, p: nat, lencode: Table, distcode: Table,
          out: seq<byte>, room: Room)
    requires p <= |a| && TableFor(lencode, FIXLCODES) && TableFor(distcode, MAXDCODES)
    requires var r := Codes(a, p, lencode, distcode, out, room); r.Ok? && Agree(a, b, r.pos)
    ensures p <= |b| && Codes(b, p, lencode, distcode, out, room) == Codes(a, p, lencode, distcode, out, room)
    decreases |a| - p
  {
    hide Next, DecodePair, Copied, TableFor;
    var r, next := Codes(a, p, lencode, distcode, out, room), Next(lencode, FIXLCODES, a, p);
    NextIsLocal(lencode, FIXLCODES, a, b, p, r.pos);
    if next.symbol < 256 {
      CodesAreLocal(a, b, next.pos, lencode, distcode, out + [next.symbol], room);
    } else if next.symbol > 256 {
      var pair := DecodePair(a, next.pos, next.symbol - 257, distcode, out);
      AgreeAt(a, b, r.pos, 0, pair.pos);
      DecodePairIsLocal(a, b, next.pos, next.symbol - 257, distcode, out);
      CodesAreLocal(a, b, pair.pos, lencode, distcode, Copied(out, pair.dist, pair.len), room);
    }
  }

  lemma {:induction false} ReadOrderedIsLocal(a: seq<bool>, b: seq<bool>, p: nat, i: nat, n: nat, lengths: seq<int>)
    requires i <= n <= 19 == |lengths| && p <= |a|
    requires var r := ReadOrdered(a, p, i, n, lengths); r.Lens? && Agree(a, b, r.pos)
    ensures p <= |b| && ReadOrdered(b, p, i, n, lengths) == ReadOrdered(a, p, i, n, lengths)
    decreases n - i
  {
    hide LowValue;
    OrderIsBelow();
    if i < n {
      var r, v := ReadOrdered(a, p, i, n, lengths), Take(a, p, 3);
      TakeIsLocal(a, b, p, 3, r.pos);
      ReadOrderedIsLocal(a, b, p + 3, i + 1, n, lengths[ORDER[i] := v.v]);
    }
  }

  lemma ReadRepeatIsLocal(a: seq<bool>, b: seq<bool>, p: nat, symbol: int, lengths: seq<int>, total: nat,
          out: seq<byte>)
    requires p <= |a| && |lengths| < total
    requires var r := ReadRepeat(a, p, symbol, lengths, total, out); r.Lens? && Agree(a, b, r.pos)
    ensures p <= |b| && ReadRepeat(b, p, symbol, lengths, total, out) == ReadRepeat(a, p, symbol, lengths, total, out)
  {
    hide LowValue;
    TakeIsLocal(a, b, p, if symbol == 16 then 2 else if symbol == 17 then 3 else 7,
                ReadRepeat(a, p, symbol, lengths, total, out).pos);
  }

  lemma {:induction false} ReadLengthsIsLocal(a: seq<bool>, b: seq<bool>, p: nat, t: Table, lengths: seq<int>,
          total: nat, out: seq<byte>)
    requires p <= |a| && TableFor(t, 19) && |lengths| <= total
    requires var r := ReadLengths(a, p, t, lengths, total, out); r.Lens? && Agree(a, b, r.pos)
    ensures p <= |b| && ReadLengths(b, p, t, lengths, total, out) == ReadLengths(a, p, t, lengths, total, out)
    decreases |a| - p
  {
    hide Next, ReadRepeat, TableFor;
    if |lengths| < total {
      var r, next := ReadLengths(a, p, t, lengths, total, out), Next(t, 19, a, p);
      NextIsLocal(t, 19, a, b, p, r.pos);
      if next.symbol < 16 {
        ReadLengthsIsLocal(a, b, next.pos, t, lengths + [next.symbol], total, out);
      } else {
        var more := ReadRepeat(a, next.pos, next.symbol, lengths, total, out);
        AgreeAt(a, b, r.pos, 0, more.pos);
        ReadRepeatIsLocal(a, b, next.pos, next.symbol, lengths, total, out);
        ReadLengthsIsLocal(a, b, more.pos, t, more.lengths, total, out);
      }
    }
  }

  lemma ReadBothIsLocal(a: seq<bool>, b: seq<bool>, p: nat, out: seq<byte>)
    requires p <= |a|
    requires var r := ReadBoth(a, p, out); r.Both? && Agree(a, b, r.pos)
    ensures p <= |b| && ReadBoth(b, p, out) == ReadBoth(a, p, out)
  {
    hide LowValue, ReadOrdered, ReadLengths, Checked, CountOf, TableFor, Built;
    var q := ReadBoth(a, p, out).pos;
    AgreeAt(a, b, q, p, p + 5);
    AgreeAt(a, b, q, p + 5, p + 10);
    AgreeAt(a, b, q, p + 10, p + 14);
    var nlen, ndist := LowValue(a[p..p + 5]) + 257, LowValue(a[p + 5..p + 10]) + 1;
    var ncode := LowValue(a[p + 10..p + 14]) + 4;
    FourBits(a[p + 10..p + 14]);
    var codes := ReadOrdered(a, p + 14, 0, ncode, Repeat(0, 19));
    AgreeAt(a, b, q, 0, codes.pos);
    ReadOrderedIsLocal(a, b, p + 14, 0, ncode, Repeat(0, 19));
    BuiltFor(codes.lengths);
    ReadLengthsIsLocal(a, b, codes.pos, Built(codes.lengths), [], nlen + ndist, out);
  }

  lemma ReadTablesIsLocal(a: seq<bool>, b: seq<bool>, p: nat, out: seq<byte>)
    requires p <= |a|
    requires var r := ReadTables(a, p, out); r.Tables? && Agree(a, b, r.pos)
    ensures p <= |b| && ReadTables(b, p, out) == ReadTables(a, p, out)
  {
    hide ReadBoth, Usable;
    ReadBothIsLocal(a, b, p, out);
  }

  lemma BlockIsLocal(a: seq<bool>, b: seq<bool>, p: nat, kind: nat, out: seq<byte>, room: Room)
    requires p <= |a|
    requires var r := Block(a, p, kind, out, room); r.Ok? && Agree(a, b, r.pos)
    ensures p <= |b| && Block(b, p, kind, out, room) == Block(a, p, kind, out, room)
  {
    hide Stored, Codes, ReadTables, TableFor, Built;
    if kind == 0 {
      StoredIsLocal(a, b, p, out, room);
    } else if kind == 1 {
      BuiltFor(FixedLengths());
      BuiltFor(FixedDistances());
      CodesAreLocal(a, b, p, Built(FixedLengths()), Built(FixedDistances()), out, room);
    } else {
      var t := ReadTables(a, p, out);
      AgreeAt(a, b, Block(a, p, kind, out, room).pos, 0, t.pos);
      ReadTablesIsLocal(a, b, p, out);
      BuiltFor(t.lengths);
      BuiltFor(t.distances);
      CodesAreLocal(a, b, t.pos, Built(t.lengths), Built(t.distances), out, room);
    }
  }

  /** If inflating ends well, any stream that is the same up to there gives the same. */
  lemma {:induction false} InflateIsLocal(a: seq<bool>, b: seq<bool>, p: nat, out: seq<byte>, room: Room)
    requires p <= |a|
    requires var r := Inflate(a, p, out, room); r.Ok? && Agree(a, b, r.pos)
    ensures p <= |b| && Inflate(b, p, out, room) == Inflate(a, p, out, room)
    decreases |a| - p
  {
    hide Block, LowValue;
    var r, kind := Inflate(a, p, out, room), LowValue(a[p + 1..p + 3]);
    var block := Block(a, p + 3, kind, out, room);
    AgreeAt(a, b, r.pos, p, p + 1);
    AgreeAt(a, b, r.pos, p + 1, p + 3);
    AgreeAt(a, b, r.pos, 0, block.pos);
    BlockIsLocal(a, b, p + 3, kind, out, room);
    if !a[p] {
      InflateIsLocal(a, b, block.pos, block.out, room);
    }
  }

  /** The same for bytes: what follows the last byte consumed does not matter. */
  lemma OnlyConsumedInputMatters(a: seq<byte>, b: seq<byte>, room: Room)
    requires var r := Inflate(Bits(a, 0, 8 * |a|), 0, [], room);
      r.Ok? && var n := (r.pos + 7) / 8; n <= |b| && a[..n] == b[..n]
    ensures Inflate(Bits(b, 0, 8 * |b|), 0, [], room) == Inflate(Bits(a, 0, 8 * |a|), 0, [], room)
  {
    hide Inflate, BitAt;
    var x, y := Bits(a, 0, 8 * |a|), Bits(b, 0, 8 * |b|);
    var q := Inflate(x, 0, [], room).pos;
    BitsSplit(a, 0, q, 8 * |a|);
    BitsSplit(b, 0, q, 8 * |b|);
    SameBytesSameBits(a, b, 0, q, (q + 7) / 8);
    assert x[..q] == Bits(a, 0, q) && y[..q] == Bits(b, 0, q);
    InflateIsLocal(x, y, 0, [], room);
  }

  /** s is how the run that scans to r ends with space for n bytes. */
  predicate Limited(r: Ending, n: nat, s: Ending) {
    match r
    case Ok(_, out) => s == if |out| <= n then r else Full
    case Fail(_, _, out) => s == if |out| <= n then r else Full
    case Full => false
    case _ => s == r || s == Full
  }

  lemma {:induction false} CodesInSpace(bits: seq<bool>, p: nat, lencode: Table, distcode: Table, out: seq<byte>,
          n: nat)
    requires p <= |bits| && TableFor(lencode, FIXLCODES) && TableFor(distcode, MAXDCODES) && |out| <= n
    ensures Limited(Codes(bits, p, lencode, distcode, out, Scanning), n,
      Codes(bits, p, lencode, distcode, out, Space(n)))
    decreases |bits| - p
  {
    hide Next, DecodePair, Copied, TableFor;
    var next := Next(lencode, FIXLCODES, bits, p);
    if next.Symbol? && next.symbol < 256 {
      if |out| + 1 <= n {
        CodesInSpace(bits, next.pos, lencode, distcode, out + [next.symbol], n);
      } else {
        CodesGrow(bits, next.pos, lencode, distcode, out + [next.symbol]);
      }
    } else if next.Symbol? && next.symbol > 256 {
      var pair := DecodePair(bits, next.pos, next.symbol - 257, distcode, out);
      if pair.Pair? {
        var more := Copied(out, pair.dist, pair.len);
        if |more| <= n {
          CodesInSpace(bits, pair.pos, lencode, distcode, more, n);
        } else {
          CodesGrow(bits, pair.pos, lencode, distcode, more);
        }
      }
    }
  }

  /** Scanning never runs out of space, and the output only grows. */
  lemma {:induction false} CodesGrow(bits: seq<bool>, p: nat, lencode: Table, distcode: Table, out: seq<byte>)
    requires p <= |bits| && TableFor(lencode, FIXLCODES) && TableFor(distcode, MAXDCODES)
    ensures
      var r := Codes(bits, p, lencode, distcode, out, Scanning);
      !r.Full? && (r.Ok? || r.Fail? ==> |out| <= |r.out|)
    decreases |bits| - p
  {
    hide Next, DecodePair, Copied, TableFor;
    var next := Next(lencode, FIXLCODES, bits, p);
    if next.Symbol? && next.symbol < 256 {
      CodesGrow(bits, next.pos, lencode, distcode, out + [next.symbol]);
    } else if next.Symbol? && next.symbol > 256 {
      var pair := DecodePair(bits, next.pos, next.symbol - 257, distcode, out);
      if pair.Pair? {
        CodesGrow(bits, pair.pos, lencode, distcode, Copied(out, pair.dist, pair.len));
      }
    }
  }

  lemma BlockInSpace(bits: seq<bool>, p: nat, kind: nat, out: seq<byte>, n: nat)
    requires p <= |bits| && |out| <= n
    ensures Limited(Block(bits, p, kind, out, Scanning), n, Block(bits, p, kind, out, Space(n)))
  {
    hide Codes, ReadTables, TableFor, Built, LowValue, ByteAt;
    if kind == 1 {
      BuiltFor(FixedLengths());
      BuiltFor(FixedDistances());
      CodesInSpace(bits, p, Built(FixedLengths()), Built(FixedDistances()), out, n);
    } else if kind == 2 && ReadTables(bits, p, out).Tables? {
      var t := ReadTables(bits, p, out);
      BuiltFor(t.lengths);
      BuiltFor(t.distances);
      CodesInSpace(bits, t.pos, Built(t.lengths), Built(t.distances), out, n);
    }
  }

  /** Scanning never runs out of space. */
  lemma {:induction false} ScanIsNeverFull(bits: seq<bool>, p: nat, out: seq<byte>)
    requires p <= |bits|
    ensures !Inflate(bits, p, out, Scanning).Full?
    decreases |bits| - p
  {
    hide Block, LowValue;
    if p + 3 <= |bits| {
      var block := Block(bits, p + 3, LowValue(bits[p + 1..p + 3]), out, Scanning);
      BlockInSpace(bits, p + 3, LowValue(bits[p + 1..p + 3]), out, |out|);
      if block.Ok? && !bits[p] {
        ScanIsNeverFull(bits, block.pos, block.out);
      }
    }
  }

  /** Writing ends as scanning does if all the output fits the space, and otherwise runs out of it. */
  lemma {:induction false} InflateInSpace(bits: seq<bool>, p: nat, out: seq<byte>, n: nat)
    requires p <= |bits| && |out| <= n
    ensures Limited(Inflate(bits, p, out, Scanning), n, Inflate(bits, p, out, Space(n)))
    decreases |bits| - p
  {
    hide Block, LowValue;
    if p + 3 <= |bits| {
      var kind := LowValue(bits[p + 1..p + 3]);
      var block := Block(bits, p + 3, kind, out, Scanning);
      BlockInSpace(bits, p + 3, kind, out, n);
      if block.Ok? && !bits[p] {
        ScanIsNeverFull(bits, block.pos, block.out);
        if |block.out| <= n {
          InflateInSpace(bits, block.pos, block.out, n);
        }
      }
    }
  }

  // ---- where puff's behaviour is not defined ----

  lemma {:induction false} CountOfRepeat(v: int, n: nat, len: int)
    ensures CountOf(Repeat(v, n), len) == if len == v then n else 0
  {
    if n > 0 {
      assert Repeat(v, n)[..n - 1] == Repeat(v, n - 1);
      CountOfRepeat(v, n - 1, len);
    }
  }

  /** Where each number stands in `ORDER` */
  const PLACES: seq<nat> := [3, 17, 15, 13, 11, 9, 7, 5, 4, 6, 8, 10, 12, 14, 16, 18, 0, 1, 2]

  lemma OrderIsPermutation()
    ensures |ORDER| == |PLACES| == 19
    ensures forall i | 0 <= i < 19 :: ORDER[i] < 19 && PLACES[ORDER[i]] == i
    ensures forall j | 0 <= j < 19 :: PLACES[j] < 19 && ORDER[PLACES[j]] == j
  {
    OrderIsBelow();
  }

  lemma OrderDiffers(i: nat)
    requires i < 19
    ensures |ORDER| == 19 && forall j | i < j < 19 :: ORDER[j] != ORDER[i]
  {
    OrderIsPermutation();
    hide ORDER, PLACES;
    forall j | i < j < 19 ensures ORDER[j] != ORDER[i] {
      assert PLACES[ORDER[j]] == j && PLACES[ORDER[i]] == i;
    }
  }

  lemma {:induction false} CountOfJoin(a: seq<int>, b: seq<int>, len: int)
    ensures CountOf(a + b, len) == CountOf(a, len) + CountOf(b, len)
  {
    if b == [] {
      assert a + b == a;
    } else {
      var n := |b| - 1;
      assert (a + b)[..|a| + n] == a + b[..n];
      CountOfJoin(a, b[..n], len);
    }
  }

  lemma FixedCounts(len: int)
    ensures
      CountOf(FixedLengths(), len) == if len == 7 then 24 else if len == 8 then 152 else if len == 9 then 112 else 0
    ensures CountOf(FixedDistances(), len) == if len == 5 then 30 else 0
  {
    hide CountOf, Repeat;
    CountOfRepeat(8, 144, len);
    CountOfRepeat(9, 112, len);
    CountOfRepeat(7, 24, len);
    CountOfRepeat(8, 8, len);
    CountOfRepeat(5, MAXDCODES, len);
    CountOfJoin(Repeat(8, 144), Repeat(9, 112), len);
    CountOfJoin(Repeat(8, 144) + Repeat(9, 112), Repeat(7, 24), len);
    CountOfJoin(Repeat(8, 144) + Repeat(9, 112) + Repeat(7, 24), Repeat(8, 8), len);
  }

  lemma {:induction false} FixedLeft(len: nat)
    requires len <= MAXBITS
    ensures
      Left(FixedLengths(), len) == if len < 7 then Pow2(len) else if len == 7 then 104 else if len == 8 then 56 else 0
    ensures Left(FixedDistances(), len) == if len < 5 then Pow2(len) else 2 * Pow2(len - 5)
  {
    hide CountOf, FixedLengths, FixedDistances;
    FixedCounts(len);
    SmallPowers();
    if len > 0 { FixedLeft(len - 1); }
  }

  lemma {:induction false} FixedFirstLeft(len: nat)
    requires len <= MAXBITS + 1
    ensures FirstLeft(FixedLengths(), len) == 0 && FirstLeft(FixedDistances(), len) > 0
    decreases MAXBITS + 1 - len
  {
    hide CountOf, FixedLengths, FixedDistances, Left;
    FixedLeft(if len <= MAXBITS then len else MAXBITS);
    if len <= MAXBITS { FixedFirstLeft(len + 1); }
  }

  /** The fixed code for literals and lengths is complete, that for distances is not. */
  lemma FixedCodesFit()
    ensures Lengths(FixedLengths()) && Lengths(FixedDistances())
    ensures Checked(FixedLengths()) == 0 && Checked(FixedDistances()) > 0
  {
    FixedFirstLeft(1);
    FixedCounts(0);
  }

  /** A code for lengths that passes the check and is not empty is complete. */
  lemma CheckedCodeIsComplete(codes: seq<int>, bits: seq<bool>, p: nat)
    requires Lengths(codes) && |codes| == 19 && Checked(codes) == 0 && CountOf(codes, 0) != 19 && p <= |bits|
    ensures !Decode(Built(codes), bits, p).NoCode?
  {
    hide Built, Checked, Decode, CountOf, KraftSum, Left;
    ConstructReturns(codes);
    LeftIsKraft(codes, MAXBITS);
    CompleteCodes(codes);
  }

  /** Reading lengths with such a code always ends in one of puff's own ways. */
  lemma {:induction false} LengthsAreDefined(bits: seq<bool>, p: nat, codes: seq<int>, lengths: seq<int>, total: nat,
          out: seq<byte>)
    requires Lengths(codes) && |codes| == 19 && Checked(codes) == 0 && CountOf(codes, 0) != 19
    requires p <= |bits| && |lengths| <= total && TableFor(Built(codes), 19)
    ensures ReadLengths(bits, p, Built(codes), lengths, total, out) != NoLens(Undefined)
    decreases |bits| - p
  {
    hide Built, Checked, Decode, CountOf, TableFor, ReadRepeat;
    if |lengths| < total {
      CheckedCodeIsComplete(codes, bits, p);
      var next := Next(Built(codes), 19, bits, p);
      if next.Symbol? {
        if next.symbol < 16 {
          LengthsAreDefined(bits, next.pos, codes, lengths + [next.symbol], total, out);
        } else {
          var more := ReadRepeat(bits, next.pos, next.symbol, lengths, total, out);
          if more.Lens? {
            LengthsAreDefined(bits, more.pos, codes, more.lengths, total, out);
          }
        }
      }
    }
  }

  /** A dynamic block whose counts are in range, whose code for lengths has nineteen zero lengths, so
      no codes, and behind which there is input for each of its lengths to fail. */
  predicate EmptyCode(bits: seq<bool>, p: nat)
    requires p <= |bits|
  {
    && p + 14 <= |bits|
    && LowValue(bits[p..p + 5]) + 257 <= MAXLCODES && LowValue(bits[p + 5..p + 10]) + 1 <= MAXDCODES
    && LowValue(bits[p + 10..p + 14]) + 4 <= 19
    && var codes := ReadOrdered(bits, p + 14, 0, LowValue(bits[p + 10..p + 14]) + 4, Repeat(0, 19));
    && codes.Lens? && CountOf(codes.lengths, 0) == 19
    && FailsFor(bits, codes.pos, LowValue(bits[p..p + 5]) + 257 + LowValue(bits[p + 5..p + 10]) + 1)
  }

  lemma UndefinedBlock(bits: seq<bool>, p: nat, out: seq<byte>)
    requires p <= |bits|
    ensures ReadBoth(bits, p, out) == NoBoth(Undefined) <==> EmptyCode(bits, p)
  {
    hide LowValue, ReadOrdered, ReadLengths, Built, TableFor, CountOf, FirstLeft;
    if p + 14 <= |bits| {
      var nlen, ndist := LowValue(bits[p..p + 5]) + 257, LowValue(bits[p + 5..p + 10]) + 1;
      var ncode := LowValue(bits[p + 10..p + 14]) + 4;
      FourBits(bits[p + 10..p + 14]);
      if nlen <= MAXLCODES && ndist <= MAXDCODES {
        var codes := ReadOrdered(bits, p + 14, 0, ncode, Repeat(0, 19));
        if codes.Lens? && Checked(codes.lengths) == 0 && CountOf(codes.lengths, 0) != 19 {
          BuiltFor(codes.lengths);
          LengthsAreDefined(bits, codes.pos, codes.lengths, [], nlen + ndist, out);
        }
      }
    }
  }

  /** Inflating gets to a dynamic block with an empty code for lengths and enough input. */
  predicate MeetsEmptyCode(bits: seq<bool>, p: nat, out: seq<byte>, room: Room)
    requires p <= |bits|
    decreases |bits| - p
  {
    && p + 3 <= |bits|
    && var kind := LowValue(bits[p + 1..p + 3]);
    || (kind == 2 && EmptyCode(bits, p + 3))
    || (var block := Block(bits, p + 3, kind, out, room);
        block.Ok? && !bits[p] && MeetsEmptyCode(bits, block.pos, block.out, room))
  }

  lemma {:induction false} CodesAreDefined(bits: seq<bool>, p: nat, lencode: Table, distcode: Table, out: seq<byte>,
          room: Room)
    requires p <= |bits| && TableFor(lencode, FIXLCODES) && TableFor(distcode, MAXDCODES)
    ensures !Codes(bits, p, lencode, distcode, out, room).Undefined?
    decreases |bits| - p
  {
    hide Next, Copied, TableFor;
    var next := Next(lencode, FIXLCODES, bits, p);
    if next.Symbol? && next.symbol < 256 {
      CodesAreDefined(bits, next.pos, lencode, distcode, out + [next.symbol], room);
    } else if next.Symbol? && next.symbol > 256 {
      var pair := DecodePair(bits, next.pos, next.symbol - 257, distcode, out);
      if pair.Pair? {
        CodesAreDefined(bits, pair.pos, lencode, distcode, Copied(out, pair.dist, pair.len), room);
      }
    }
  }

  lemma BlockIsDefined(bits: seq<bool>, p: nat, kind: nat, out: seq<byte>, room: Room)
    requires p <= |bits|
    ensures Block(bits, p, kind, out, room).Undefined? <==> kind == 2 && EmptyCode(bits, p)
  {
    hide Codes, ReadBoth, TableFor, Built, LowValue, ByteAt, Usable, EmptyCode;
    if kind == 1 {
      BuiltFor(FixedLengths());
      BuiltFor(FixedDistances());
      CodesAreDefined(bits, p, Built(FixedLengths()), Built(FixedDistances()), out, room);
    } else if kind == 2 {
      UndefinedBlock(bits, p, out);
      var t := ReadTables(bits, p, out);
      if t.Tables? {
        BuiltFor(t.lengths);
        BuiltFor(t.distances);
        CodesAreDefined(bits, t.pos, Built(t.lengths), Built(t.distances), out, room);
      }
    }
  }

  /** puff's behaviour is undefined exactly if it gets to a dynamic block whose code for lengths has
      nineteen zero lengths, and which is followed by input for all of its lengths to fail. */
  lemma {:induction false} UndefinedIsEmptyCode(bits: seq<bool>, p: nat, out: seq<byte>, room: Room)
    requires p <= |bits|
    ensures Inflate(bits, p, out, room).Undefined? <==> MeetsEmptyCode(bits, p, out, room)
    decreases |bits| - p
  {
    hide Block, LowValue, EmptyCode;
    if p + 3 <= |bits| {
      var kind := LowValue(bits[p + 1..p + 3]);
      BlockIsDefined(bits, p + 3, kind, out, room);
      var block := Block(bits, p + 3, kind, out, room);
      if block.Ok? && !bits[p] {
        UndefinedIsEmptyCode(bits, block.pos, block.out, room);
      }
    }
  }

  lemma {:induction false} ZeroValue(n: nat)
    ensures LowValue(seq(n, _ => false)) == 0
  {
    if n > 0 {
      ZeroValue(n - 1);
      assert seq(n, _ => false)[1..] == seq(n - 1, _ => false);
    }
  }

  lemma {:induction false} ZerosAreRead(bits: seq<bool>, p: nat, i: nat, n: nat)
    requires i <= n <= 19 && p + 3 * (n - i) <= |bits| && forall k | p <= k < |bits| :: !bits[k]
    ensures ReadOrdered(bits, p, i, n, Repeat(0, 19)) == Lens(Repeat(0, 19), p + 3 * (n - i))
    decreases n - i
  {
    if i < n {
      OrderIsBelow();
      assert bits[p..p + 3] == seq(3, _ => false);
      ZeroValue(3);
      hide LowValue;
      assert Repeat(0, 19)[ORDER[i] := 0] == Repeat(0, 19);
      ZerosAreRead(bits, p + 3, i + 1, n);
    }
  }

  lemma TwoIsRead()
    ensures LowValue([false, true]) == 2
  {
    assert [false, true][1..] == [true] && [true][1..] == [];
  }

  /** A last dynamic block of zeros */
  function ZeroBlock(n: nat): seq<bool> {
    [true, false, true] + seq(n, _ => false)
  }

  lemma ZeroBlockIsEmpty(n: nat)
    requires n >= 26
    ensures |ZeroBlock(n)| == n + 3 && LowValue(ZeroBlock(n)[1..3]) == 2 && ReadBoth(ZeroBlock(n), 3, [])
            == NoBoth(if FailsFor(ZeroBlock(n), 29, 258) then Undefined else Starve)
  {
    hide LowValue, FailsFor, ReadOrdered, ReadLengths, Built, CountOf, ZeroBlock, TableFor;
    var bits := ZeroBlock(n);
    ZeroBlockParts(n);
    TwoIsRead();
    ZeroValue(5);
    ZeroValue(4);
    ZerosAreRead(bits, 17, 0, 4);
    CountOfRepeat(0, 19, 0);
  }

  lemma ZeroBlockParts(n: nat)
    requires n >= 26
    ensures
      var bits := ZeroBlock(n);
      && |bits| == n + 3 && bits[1..3] == [false, true] && (forall k | 3 <= k < |bits| :: !bits[k])
      && bits[3..8] == bits[8..13] == seq(5, _ => false) && bits[13..17] == seq(4, _ => false)
  {
  }

  /** There are such streams: a last dynamic block of zeros in 520 bytes. */
  lemma EmptyCodeExists(room: Room)
    ensures Inflate(ZeroBlock(4157), 0, [], room).Undefined?
  {
    hide LowValue, ReadBoth, Codes;
    ZeroBlockIsEmpty(4157);
  }

  /** With one byte less puff runs out of input. */
  lemma ShortEmptyCode(n: nat, room: Room)
    requires 26 <= n < 4157
    ensures Inflate(ZeroBlock(n), 0, [], room) == Starve
  {
    hide LowValue, ReadBoth, Codes;
    ZeroBlockIsEmpty(n);
  }
}
