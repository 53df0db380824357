/**
  What more input does to puff of Shared/puff.c: it can only change the result 2, that there is too little.
 */
module PuffPrefix {
  import opened BitStream
  import opened PuffCode
  import opened PuffInflate
  import opened PuffProperties
  import opened PuffDeflate
  import opened PuffStream

  lemma TakeGoesOn(a: seq<bool>, b: seq<bool>, p: nat, need: nat)
    requires a <= b
    ensures Take(a, p, need).OutOfBits? || Take(b, p, need) == Take(a, p, need)
  {
    hide LowValue;
    if p + need <= |a| { assert a[p..p + need] == b[p..p + need]; }
  }

  lemma {:induction false} ScanGoesOn(t: Table, a: seq<bool>, b: seq<bool>, p: nat, len: nat, code: nat, first: nat)
    requires Proper(t) && p <= |a| && 1 <= len <= MAXBITS + 1 && first <= code && a <= b
    ensures Scan(t, a, p, len, code, first).Starved?
         || Scan(t, b, p, len, code, first) == Scan(t, a, p, len, code, first)
    decreases MAXBITS + 1 - len
  {
    hide Sum;
    SumIsIndex(t, len);
    if len <= MAXBITS && p < |a| {
      var next := code + if a[p] then 1 else 0;
      if next >= first + t.count[len] {
        ScanGoesOn(t, a, b, p + 1, len + 1, 2 * next, 2 * (first + t.count[len]));
      }
    }
  }

  lemma NextGoesOn(t: Table, n: nat, a: seq<bool>, b: seq<bool>, p: nat)
    requires TableFor(t, n) && p <= |a| && a <= b
    ensures Next(t, n, a, p).Starved? || Next(t, n, b, p) == Next(t, n, a, p)
  {
    ScanGoesOn(t, a, b, p, 1, 0, 0);
  }

  lemma ByteStays(a: seq<bool>, b: seq<bool>, p: nat)
    requires a <= b && p + 8 <= |a|
    ensures ByteAt(b, p) == ByteAt(a, p)
  {
    hide LowValue;
    assert a[p..p + 8] == b[p..p + 8];
  }

  lemma BytesStay(a: seq<bool>, b: seq<bool>, p: nat, n: nat)
    requires a <= b && p + 8 * n <= |a|
    ensures BytesAt(b, p, n) == BytesAt(a, p, n)
  {
    forall i | 0 <= i < n ensures BytesAt(b, p, n)[i] == BytesAt(a, p, n)[i] {
      ByteStays(a, b, p + 8 * i);
    }
  }

  lemma StoredGoesOn(a: seq<bool>, b: seq<bool>, p: nat, out: seq<byte>, room: Room)
    requires a <= b
    ensures Stored(a, p, out, room).Starve? || Stored(b, p, out, room) == Stored(a, p, out, room)
  {
    hide ByteAt, BytesAt;
    var k := (p + 7) / 8 * 8;
    if k + 32 <= |a| {
      ByteStays(a, b, k);
      ByteStays(a, b, k + 8);
      ByteStays(a, b, k + 16);
      ByteStays(a, b, k + 24);
      var len := ByteAt(a, k) as int + 256 * ByteAt(a, k + 8);
      if k + 32 + 8 * len <= |a| { BytesStay(a, b, k + 32, len); }
    }
  }


  lemma DecodePairGoesOn(a: seq<bool>, b: seq<bool>, p: nat, i: nat, distcode: Table, out: seq<byte>)
    requires p <= |a| && TableFor(distcode, MAXDCODES) && a <= b
    ensures
      var r := DecodePair(a, p, i, distcode, out);
      r == NoPair(Starve) || DecodePair(b, p, i, distcode, out) == r
  {
    hide Next, Take, TableFor;
    TableSizes();
    if i < |LENS| {
      TakeGoesOn(a, b, p, LEXT[i]);
      if Take(a, p, LEXT[i]).Taken? {
        TakenIsInside(a, p, LEXT[i]);
        var q := p + LEXT[i];
        NextGoesOn(distcode, MAXDCODES, a, b, q);
        var d := Next(distcode, MAXDCODES, a, q);
        if d.Symbol? { TakeGoesOn(a, b, d.pos, DEXT[d.symbol]); }
      }
    }
  }

  lemma TakenIsInside(a: seq<bool>, p: nat, need: nat)
    requires Take(a, p, need).Taken?
    ensures p + need <= |a| && Take(a, p, need).pos == p + need
  {
  }

  lemma {:induction false} CodesGoOn(a: seq<bool>, b: seq<bool>, p: nat, lencode: Table, distcode: Table,
          out: seq<byte>, room: Room)
    requires p <= |a| && TableFor(lencode, FIXLCODES) && TableFor(distcode, MAXDCODES) && a <= b
    ensures
      var r := Codes(a, p, lencode, distcode, out, room);
      r.Starve? || Codes(b, p, lencode, distcode, out, room) == r
    decreases |a| - p
  {
    hide Next, DecodePair, Copied, TableFor;
    var next := Next(lencode, FIXLCODES, a, p);
    NextGoesOn(lencode, FIXLCODES, a, b, p);
    if next.Symbol? {
      if next.symbol < 256 {
        if Holds(room, |out| + 1) {
          CodesGoOn(a, b, next.pos, lencode, distcode, out + [next.symbol], room);
        }
      } else if next.symbol > 256 {
        var pair := DecodePair(a, next.pos, next.symbol - 257, distcode, out);
        DecodePairGoesOn(a, b, next.pos, next.symbol - 257, distcode, out);
        if pair.Pair? && Holds(room, |out| + pair.len) {
          CodesGoOn(a, b, pair.pos, lencode, distcode, Copied(out, pair.dist, pair.len), room);
        }
      }
    }
  }

  lemma {:induction false} ReadOrderedGoesOn(a: seq<bool>, b: seq<bool>, p: nat, i: nat, n: nat, lengths: seq<int>)
    requires i <= n <= 19 == |lengths| && p <= |a| && a <= b
    ensures ReadOrdered(a, p, i, n, lengths).NoLens?
         || ReadOrdered(b, p, i, n, lengths) == ReadOrdered(a, p, i, n, lengths)
    decreases n - i
  {
    hide Take;
    OrderIsBelow();
    if i < n {
      TakeGoesOn(a, b, p, 3);
      var v := Take(a, p, 3);
      if v.Taken? {
        TakenIsInside(a, p, 3);
        ReadOrderedGoesOn(a, b, p + 3, i + 1, n, lengths[ORDER[i] := v.v]);
      }
    }
  }

  lemma ReadRepeatGoesOn(a: seq<bool>, b: seq<bool>, p: nat, symbol: int, lengths: seq<int>, total: nat,
          out: seq<byte>)
    requires p <= |a| && |lengths| < total && a <= b
    ensures
      var r := ReadRepeat(a, p, symbol, lengths, total, out);
      r == NoLens(Starve) || ReadRepeat(b, p, symbol, lengths, total, out) == r
  {
    hide Take;
    TakeGoesOn(a, b, p, if symbol == 16 then 2 else if symbol == 17 then 3 else 7);
  }

  lemma {:induction false} ReadLengthsGoOn(a: seq<bool>, b: seq<bool>, p: nat, t: Table, lengths: seq<int>,
          total: nat, out: seq<byte>)
    requires p <= |a| && TableFor(t, 19) && |lengths| <= total && a <= b
    ensures
      var r := ReadLengths(a, p, t, lengths, total, out);
      r == NoLens(Starve) || ReadLengths(b, p, t, lengths, total, out) == r
    decreases |a| - p
  {
    hide Next, ReadRepeat, TableFor;
    if |lengths| < total {
      NextGoesOn(t, 19, a, b, p);
      var next := Next(t, 19, a, p);
      if next.Symbol? {
        if next.symbol < 16 {
          ReadLengthsGoOn(a, b, next.pos, t, lengths + [next.symbol], total, out);
        } else {
          ReadRepeatGoesOn(a, b, next.pos, next.symbol, lengths, total, out);
          var more := ReadRepeat(a, next.pos, next.symbol, lengths, total, out);
          if more.Lens? { ReadLengthsGoOn(a, b, more.pos, t, more.lengths, total, out); }
        }
      }
    }
  }

  lemma ReadBothGoesOn(a: seq<bool>, b: seq<bool>, p: nat, out: seq<byte>)
    requires p <= |a| && a <= b
    ensures var r := ReadBoth(a, p, out); r == NoBoth(Starve) || ReadBoth(b, p, out) == r
  {
    hide LowValue, ReadOrdered, ReadLengths, Checked, CountOf, TableFor, Built;
    if p + 14 <= |a| {
      assert a[p..p + 5] == b[p..p + 5] && a[p + 5..p + 10] == b[p + 5..p + 10];
      assert a[p + 10..p + 14] == b[p + 10..p + 14];
      var nlen, ndist := LowValue(a[p..p + 5]) + 257, LowValue(a[p + 5..p + 10]) + 1;
      var ncode := LowValue(a[p + 10..p + 14]) + 4;
      FourBits(a[p + 10..p + 14]);
      ReadOrderedGoesOn(a, b, p + 14, 0, ncode, Repeat(0, 19));
      var codes := ReadOrdered(a, p + 14, 0, ncode, Repeat(0, 19));
      if codes.Lens? {
        BuiltFor(codes.lengths);
        ReadLengthsGoOn(a, b, codes.pos, Built(codes.lengths), [], nlen + ndist, out);
      }
    }
  }

  lemma ReadTablesGoOn(a: seq<bool>, b: seq<bool>, p: nat, out: seq<byte>)
    requires p <= |a| && a <= b
    ensures var r := ReadTables(a, p, out); r == NoTables(Starve) || ReadTables(b, p, out) == r
  {
    hide ReadBoth, Usable;
    ReadBothGoesOn(a, b, p, out);
  }

  lemma BlockGoesOn(a: seq<bool>, b: seq<bool>, p: nat, kind: nat, out: seq<byte>, room: Room)
    requires p <= |a| && a <= b
    ensures
      var r := PuffInflate.Block(a, p, kind, out, room);
      r.Starve? || PuffInflate.Block(b, p, kind, out, room) == r
  {
    hide Stored, Codes, ReadTables, TableFor, Built;
    if kind == 0 {
      StoredGoesOn(a, b, p, out, room);
    } else if kind == 1 {
      BuiltFor(FixedLengths());
      BuiltFor(FixedDistances());
      CodesGoOn(a, b, p, Built(FixedLengths()), Built(FixedDistances()), out, room);
    } else {
      ReadTablesGoOn(a, b, p, out);
      var t := ReadTables(a, p, out);
      if kind == 2 && t.Tables? {
        BuiltFor(t.lengths);
        BuiltFor(t.distances);
        CodesGoOn(a, b, t.pos, Built(t.lengths), Built(t.distances), out, room);
      }
    }
  }

  /** With more input inflating ends as before, unless it has run out of input. */
  lemma {:induction false} InflateGoesOn(a: seq<bool>, b: seq<bool>, p: nat, out: seq<byte>, room: Room)
    requires p <= |a| && a <= b
    ensures var r := Inflate(a, p, out, room); r.Starve? || Inflate(b, p, out, room) == r
    decreases |a| - p
  {
    hide PuffInflate.Block, LowValue;
    if p + 3 <= |a| {
      var kind := LowValue(a[p + 1..p + 3]);
      assert a[p + 1..p + 3] == b[p + 1..p + 3];
      BlockGoesOn(a, b, p + 3, kind, out, room);
      var block := PuffInflate.Block(a, p + 3, kind, out, room);
      if block.Ok? && !a[p] {
        InflateGoesOn(a, b, block.pos, block.out, room);
      }
    }
  }

  /** A stream that is cut off anywhere runs out of input. */
  lemma CutIsRefused(bits: seq<bool>, n: nat, blocks: seq<Block>, room: Room)
    requires StreamFits(blocks, Start()) && bits == StreamBits(blocks, Start()) && n < |bits|
    requires Holds(room, |StreamData(blocks, Start())|)
    ensures Code(Inflate(bits[..n], 0, [], room)) == 2
  {
    hide StreamFits, StreamBits, StreamData, Inflate;
    StreamIsRead(bits, Start(), blocks, room);
    InflateGoesOn(bits[..n], bits, 0, [], room);
  }
}
