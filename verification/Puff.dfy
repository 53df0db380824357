/**
  Shared/puff.c as it works: bytes are fetched into a small bit buffer, tables are counted and
  filled in place, and output is written or, when scanning, only counted.
 */
module Puff {
  import opened BitStream
  import opened MsgCode
  import opened PuffCode
  import opened PuffInflate
  import opened PuffProperties

  class Huffman {
    const count: array<int>
    const symbol: array<int>

    constructor (n: nat)
      ensures fresh(count) && fresh(symbol) && count.Length == MAXBITS + 1 && symbol.Length == n
    {
      count := new int[MAXBITS + 1];
      symbol := new int[n];
    }

    /** The tables are those for the lengths. */
    ghost predicate Stores(lengths: seq<int>)
      reads count, symbol
    {
      && count.Length == MAXBITS + 1 && |Sorted(lengths, MAXBITS)| <= symbol.Length
      && (forall len | 0 <= len <= MAXBITS :: count[len] == CountOf(lengths, len))
      && symbol[..|Sorted(lengths, MAXBITS)|] == Sorted(lengths, MAXBITS)
    }

    /** construct, for the n lengths from `from` on */
    method Construct(length: array<int>, from: nat, n: nat) returns (err: int)
      requires from + n <= length.Length && Lengths(length[from..from + n])
      requires count.Length == MAXBITS + 1 && n <= symbol.Length
      requires count != symbol && count != length && symbol != length
      modifies count, symbol
      ensures err == Checked(length[from..from + n])
      ensures count[0] == CountOf(length[from..from + n], 0)
      ensures err >= 0 ==> Stores(length[from..from + n])
    {
      hide CountOf, FirstLeft, Sorted, Offset;
      ghost var lengths := length[from..from + n];
      CountLengths(length, from, n);
      if count[0] == n {
        NoCodes(lengths);
        return 0;
      }
      var left := 1;
      var len := 1;
      while len <= MAXBITS
        invariant 1 <= len <= MAXBITS + 1 && left == Left(lengths, len - 1)
        invariant FirstLeft(lengths, 1) == FirstLeft(lengths, len)
        invariant forall k | 0 <= k <= MAXBITS :: count[k] == CountOf(lengths, k)
      {
        left := 2 * left;
        left := left - count[len];
        FirstLeftStep(lengths, len);
        if left < 0 {
          return left;
        }
        len := len + 1;
      }
      FirstLeftStep(lengths, MAXBITS + 1);
      SortSymbols(length, from, n);
      return left;
    }

    /** The first loops of construct */
    method CountLengths(length: array<int>, from: nat, n: nat)
      requires from + n <= length.Length && Lengths(length[from..from + n])
      requires count.Length == MAXBITS + 1 && count != length
      modifies count
      ensures forall len | 0 <= len <= MAXBITS :: count[len] == CountOf(length[from..from + n], len)
    {
      ghost var lengths := length[from..from + n];
      var len := 0;
      while len <= MAXBITS
        invariant 0 <= len <= MAXBITS + 1 && forall k | 0 <= k < len :: count[k] == 0
      {
        count[len] := 0;
        len := len + 1;
      }
      assert lengths[..0] == [];
      var symbol := 0;
      while symbol < n
        invariant 0 <= symbol <= n && length[from..from + n] == lengths
        invariant forall k | 0 <= k <= MAXBITS :: count[k] == CountOf(lengths[..symbol], k)
      {
        assert lengths[..symbol + 1][..symbol] == lengths[..symbol];
        assert lengths[symbol] == length[from + symbol];
        count[length[from + symbol]] := count[length[from + symbol]] + 1;
        symbol := symbol + 1;
      }
      assert lengths[..n] == lengths;
    }

    /** The last loops of construct: the symbols, sorted by length, in their order within a length */
    method SortSymbols(length: array<int>, from: nat, n: nat)
      requires from + n <= length.Length && Lengths(length[from..from + n])
      requires count.Length == MAXBITS + 1 && n <= symbol.Length
      requires symbol != length && symbol != count
      requires forall len | 0 <= len <= MAXBITS :: count[len] == CountOf(length[from..from + n], len)
      modifies symbol
      ensures Stores(length[from..from + n])
    {
      hide CountOf, OfLength, Sorted, Offset;
      ghost var lengths := length[from..from + n];
      AllCounted(lengths);
      var offs := new int[MAXBITS + 1];
      offs[1] := 0;
      OffsetStep(lengths, 0);
      var len := 1;
      while len < MAXBITS
        invariant 1 <= len <= MAXBITS && forall k | 1 <= k <= len :: offs[k] == Offset(lengths, k)
        invariant forall k | 0 <= k <= MAXBITS :: count[k] == CountOf(lengths, k)
      {
        OffsetStep(lengths, len);
        offs[len + 1] := offs[len] + count[len];
        len := len + 1;
      }
      PlaceSymbols(length, from, n, offs);
    }

    /** The last loop of construct */
    method PlaceSymbols(length: array<int>, from: nat, n: nat, offs: array<int>)
      requires from + n <= length.Length && Lengths(length[from..from + n]) && n <= symbol.Length
      requires offs.Length == MAXBITS + 1 && symbol != length && offs != length && offs != symbol
      requires forall k | 1 <= k <= MAXBITS :: offs[k] == Offset(length[from..from + n], k)
      modifies symbol, offs
      ensures |Sorted(length[from..from + n], MAXBITS)| <= symbol.Length
      ensures symbol[..|Sorted(length[from..from + n], MAXBITS)|] == Sorted(length[from..from + n], MAXBITS)
    {
      hide CountOf, OfLength, Sorted, Offset, Placed;
      ghost var lengths := length[from..from + n];
      NothingPlaced(lengths, symbol[..], offs[..]);
      AllCounted(lengths);
      var s := 0;
      while s < n
        invariant 0 <= s <= n && length[from..from + n] == lengths
        invariant Placed(lengths, s, symbol[..], offs[..])
      {
        assert lengths[s] == length[from + s];
        ghost var before, offsets := symbol[..], offs[..];
        PlaceNext(lengths, s, before, offsets);
        if length[from + s] != 0 {
          symbol[offs[length[from + s]]] := s;
          offs[length[from + s]] := offs[length[from + s]] + 1;
        }
        s := s + 1;
      }
      AllPlaced(lengths, symbol[..], offs[..]);
    }
  }

  lemma FirstLeftStep(lengths: seq<int>, len: nat)
    requires 1 <= len <= MAXBITS + 1
    ensures FirstLeft(lengths, len) ==
      if len == MAXBITS + 1 then Left(lengths, MAXBITS)
      else if Left(lengths, len) < 0 then Left(lengths, len)
      else FirstLeft(lengths, len + 1)
  {
  }

  lemma OffsetStep(lengths: seq<int>, len: nat)
    ensures Offset(lengths, len + 1) == if len == 0 then 0 else Offset(lengths, len) + CountOf(lengths, len)
  {
  }

  lemma {:induction false} CountSplits(lengths: seq<int>)
    requires Lengths(lengths)
    ensures CountOf(lengths, 0) + Offset(lengths, MAXBITS + 1) == |lengths|
  {
    if lengths == [] {
      OffsetOfNothing(MAXBITS + 1);
    } else {
      var n := |lengths| - 1;
      CountSplits(lengths[..n]);
      OffsetOfMore(lengths, MAXBITS + 1);
    }
  }

  lemma {:induction false} OffsetOfNothing(len: nat)
    ensures Offset([], len) == 0
  {
    if len > 1 { OffsetOfNothing(len - 1); }
  }

  lemma {:induction false} OffsetOfMore(lengths: seq<int>, len: nat)
    requires lengths != []
    ensures
      var n := |lengths| - 1;
      Offset(lengths, len) == Offset(lengths[..n], len) + if 1 <= lengths[n] < len then 1 else 0
  {
    if len > 1 { OffsetOfMore(lengths, len - 1); }
  }

  lemma AllCounted(lengths: seq<int>)
    requires Lengths(lengths)
    ensures CountOf(lengths, 0) + |Sorted(lengths, MAXBITS)| == |lengths|
  {
    CountSplits(lengths);
  }

  /** If no symbol has a code, the table holds none. */
  lemma NoCodes(lengths: seq<int>)
    requires Lengths(lengths) && CountOf(lengths, 0) == |lengths|
    ensures |Sorted(lengths, MAXBITS)| == 0
  {
    AllCounted(lengths);
  }

  /** The symbols below s are in their places, and each offset is behind them. */
  ghost predicate Placed(lengths: seq<int>, s: nat, symbol: seq<int>, offs: seq<int>)
    requires s <= |lengths|
  {
    && |offs| == MAXBITS + 1 && |Sorted(lengths, MAXBITS)| <= |symbol|
    && forall len | 1 <= len <= MAXBITS :: PlacedAt(lengths, s, symbol, offs[len], len)
  }

  ghost predicate PlacedAt(lengths: seq<int>, s: nat, symbol: seq<int>, off: int, len: nat)
    requires s <= |lengths| && |Sorted(lengths, MAXBITS)| <= |symbol| && 1 <= len <= MAXBITS
  {
    && off == Offset(lengths, len) + CountOf(lengths[..s], len) <= Offset(lengths, len + 1) <= |symbol|
    && symbol[Offset(lengths, len)..off] == OfLength(lengths[..s], len)
  }

  lemma NothingPlaced(lengths: seq<int>, symbol: seq<int>, offs: seq<int>)
    requires Lengths(lengths) && |offs| == MAXBITS + 1 && |lengths| <= |symbol|
    requires forall len | 1 <= len <= MAXBITS :: offs[len] == Offset(lengths, len)
    ensures Placed(lengths, 0, symbol, offs)
  {
    hide Sorted, Offset, CountOf, OfLength, PlacedAt;
    AllCounted(lengths);
    forall len | 1 <= len <= MAXBITS ensures PlacedAt(lengths, 0, symbol, offs[len], len) {
      NothingPlacedAt(lengths, symbol, offs[len], len);
    }
  }

  lemma NothingPlacedAt(lengths: seq<int>, symbol: seq<int>, off: int, len: nat)
    requires Lengths(lengths) && |lengths| <= |symbol| && 1 <= len <= MAXBITS && off == Offset(lengths, len)
    ensures |Sorted(lengths, MAXBITS)| <= |symbol| && PlacedAt(lengths, 0, symbol, off, len)
  {
    hide Sorted, Lengths;
    AllCounted(lengths);
    assert lengths[..0] == [];
    OffsetGrows(lengths, len, len + 1);
    OffsetGrows(lengths, len + 1, MAXBITS + 1);
    assert symbol[off..off] == [];
  }

  lemma {:induction false} OffsetGrows(lengths: seq<int>, i: nat, j: nat)
    requires i <= j
    ensures Offset(lengths, i) <= Offset(lengths, j)
    decreases j
  {
    if i < j { OffsetGrows(lengths, i, j - 1); }
  }

  lemma {:induction false} CountOfPrefix(lengths: seq<int>, s: nat, len: int)
    requires s <= |lengths|
    ensures CountOf(lengths[..s], len) <= CountOf(lengths, len)
    decreases |lengths|
  {
    if s < |lengths| {
      var n := |lengths| - 1;
      CountOfPrefix(lengths[..n], s, len);
      assert lengths[..n][..s] == lengths[..s];
    } else {
      assert lengths[..s] == lengths;
    }
  }

  lemma OneMore(lengths: seq<int>, s: nat, len: int)
    requires s < |lengths|
    ensures CountOf(lengths[..s + 1], len) == CountOf(lengths[..s], len) + if lengths[s] == len then 1 else 0
    ensures
      OfLength(lengths[..s + 1], len) == OfLength(lengths[..s], len) + if lengths[s] == len then [s as int] else []
  {
    assert lengths[..s + 1][..s] == lengths[..s];
  }

  /** Where a symbol goes there is room for it. */
  lemma PlaceIsFree(lengths: seq<int>, s: nat, len: nat)
    requires s < |lengths| && lengths[s] == len && 1 <= len <= MAXBITS
    ensures Offset(lengths, len) + CountOf(lengths[..s], len) < Offset(lengths, len + 1) <= |Sorted(lengths, MAXBITS)|
  {
    OneMore(lengths, s, len);
    CountOfPrefix(lengths, s + 1, len);
    OffsetGrows(lengths, len + 1, MAXBITS + 1);
  }

  /** Placing symbol s keeps what is in place. */
  lemma PlaceNext(lengths: seq<int>, s: nat, symbol: seq<int>, offs: seq<int>)
    requires Lengths(lengths) && s < |lengths| && Placed(lengths, s, symbol, offs)
    ensures |offs| == MAXBITS + 1
    ensures
      var len := lengths[s];
      if len == 0 then Placed(lengths, s + 1, symbol, offs)
      else 0 <= offs[len] < |symbol| && Placed(lengths, s + 1, symbol[offs[len] := s], offs[len := offs[len] + 1])
  {
    hide Sorted, PlacedAt, CountOf;
    var len := lengths[s];
    if len == 0 {
      forall k | 1 <= k <= MAXBITS ensures PlacedAt(lengths, s + 1, symbol, offs[k], k) {
        assert PlacedAt(lengths, s, symbol, offs[k], k);
        SamePlaces(lengths, s, symbol, symbol, offs[k], k);
      }
    } else {
      assert PlacedAt(lengths, s, symbol, offs[len], len);
      PlaceIsFree(lengths, s, len);
      PlacedOff(lengths, s, symbol, offs[len], len);
      var after := symbol[offs[len] := s];
      forall k | 1 <= k <= MAXBITS
        ensures PlacedAt(lengths, s + 1, after, if k == len then offs[k] + 1 else offs[k], k)
      {
        assert PlacedAt(lengths, s, symbol, offs[k], k);
        if k == len {
          NewPlace(lengths, s, symbol, offs[k], k);
        } else {
          if k < len { OffsetGrows(lengths, k + 1, len); } else { OffsetGrows(lengths, len + 1, k); }
          OtherPlaces(lengths, s, symbol, offs[k], k, offs[len]);
        }
      }
    }
  }

  lemma PlacedOff(lengths: seq<int>, s: nat, symbol: seq<int>, off: int, len: nat)
    requires s <= |lengths| && |Sorted(lengths, MAXBITS)| <= |symbol| && 1 <= len <= MAXBITS
    requires PlacedAt(lengths, s, symbol, off, len)
    ensures off == Offset(lengths, len) + CountOf(lengths[..s], len)
  {
  }

  lemma SamePlaces(lengths: seq<int>, s: nat, symbol: seq<int>, after: seq<int>, off: int, len: nat)
    requires s < |lengths| && |Sorted(lengths, MAXBITS)| <= |symbol| && 1 <= len <= MAXBITS && lengths[s] != len
    requires PlacedAt(lengths, s, symbol, off, len) && |after| == |symbol|
    requires forall i | Offset(lengths, len) <= i < off :: after[i] == symbol[i]
    ensures PlacedAt(lengths, s + 1, after, off, len)
  {
    hide Sorted, CountOf, OfLength;
    OneMore(lengths, s, len);
    assert after[Offset(lengths, len)..off] == symbol[Offset(lengths, len)..off];
  }

  lemma OtherPlaces(lengths: seq<int>, s: nat, symbol: seq<int>, off: int, len: nat, at: int)
    requires s < |lengths| && |Sorted(lengths, MAXBITS)| <= |symbol| && 1 <= len <= MAXBITS && lengths[s] != len
    requires PlacedAt(lengths, s, symbol, off, len) && 0 <= at < |symbol|
    requires at < Offset(lengths, len) || Offset(lengths, len + 1) <= at
    ensures PlacedAt(lengths, s + 1, symbol[at := s], off, len)
  {
    hide Sorted, CountOf, OfLength;
    SamePlaces(lengths, s, symbol, symbol[at := s], off, len);
  }

  lemma NewPlace(lengths: seq<int>, s: nat, symbol: seq<int>, off: int, len: nat)
    requires s < |lengths| && |Sorted(lengths, MAXBITS)| <= |symbol| && 1 <= len <= MAXBITS && lengths[s] == len
    requires PlacedAt(lengths, s, symbol, off, len) && 0 <= off < |symbol|
    ensures PlacedAt(lengths, s + 1, symbol[off := s], off + 1, len)
  {
    hide Sorted, CountOf, OfLength;
    OneMore(lengths, s, len);
    PlaceIsFree(lengths, s, len);
    var from, after := Offset(lengths, len), symbol[off := s];
    assert after[from..off + 1] == symbol[from..off] + [s];
  }

  /** With every symbol in place, the table is sorted. */
  lemma AllPlaced(lengths: seq<int>, symbol: seq<int>, offs: seq<int>)
    requires Placed(lengths, |lengths|, symbol, offs)
    ensures symbol[..|Sorted(lengths, MAXBITS)|] == Sorted(lengths, MAXBITS)
  {
    PlacedUpTo(lengths, symbol, offs, MAXBITS);
  }

  lemma {:induction false} PlacedUpTo(lengths: seq<int>, symbol: seq<int>, offs: seq<int>, len: nat)
    requires Placed(lengths, |lengths|, symbol, offs) && len <= MAXBITS
    ensures |Sorted(lengths, len)| <= |symbol| && symbol[..|Sorted(lengths, len)|] == Sorted(lengths, len)
  {
    hide CountOf, OfLength;
    OffsetGrows(lengths, len + 1, MAXBITS + 1);
    if len > 0 {
      PlacedUpTo(lengths, symbol, offs, len - 1);
      assert PlacedAt(lengths, |lengths|, symbol, offs[len], len);
      assert lengths[..|lengths|] == lengths;
      var a, b := Offset(lengths, len), Offset(lengths, len + 1);
      assert symbol[..b] == symbol[..a] + symbol[a..b];
    }
  }

  /** What a fetch gives, unless the input ends (longjmp in the program). */
  datatype Fetched = Jumped | Got(v: int)

  class State {
    const input: array<byte>
    const inlen: nat
    var incnt: nat
    var bitbuf: nat
    var bitcnt: int
    const out: array?<byte>
    const outlen: nat
    var outcnt: nat

    // the output, which is not stored when scanning
    ghost var written: seq<byte>

    constructor (dest: array?<byte>, destlen: nat, source: array<byte>, sourcelen: nat)
      requires sourcelen <= source.Length && (dest != null ==> dest != source && destlen <= dest.Length)
      ensures Valid() && Pos() == 0 && written == [] && input == source && inlen == sourcelen && out == dest
      ensures outlen == destlen
    {
      hide LowValue, Bits;
      out, outlen, outcnt := dest, destlen, 0;
      input, inlen, incnt := source, sourcelen, 0;
      bitbuf, bitcnt := 0, 0;
      written := [];
      new;
      NoValue();
      assert All()[0..0] == [];
    }

    /** All the input */
    ghost function All(): (r: seq<bool>)
      requires inlen <= input.Length
      reads input
      ensures |r| == 8 * inlen
    {
      Bits(input[..inlen], 0, 8 * inlen)
    }

    /** The number of bits that have been taken */
    ghost function Pos(): int
      reads this
    {
      8 * incnt - bitcnt
    }

    ghost function Space(): Room {
      if out == null then Scanning else Room.Space(outlen)
    }

    ghost predicate Stored0()
      reads this, out
    {
      && outcnt == |written|
      && (out != null ==> out != input && outcnt <= outlen <= out.Length && out[..outcnt] == written)
    }

    ghost predicate Valid()
      reads this, input, out
    {
      && inlen <= input.Length && incnt <= inlen && 0 <= bitcnt < 8 && bitcnt <= 8 * incnt
      && bitbuf == LowValue(All()[Pos()..8 * incnt]) && Stored0()
    }

    /** The run has come to this end, with this result code. */
    ghost predicate Ends(e: Ending, err: int)
      reads this, input, out
    {
      err == Code(e) &&
      match e
      case Ok(q, o) => Valid() && Pos() == q && written == o
      case Fail(_, q, o) => incnt == (q + 7) / 8 && Stored0() && written == o
      case _ => true
    }

    /** bits */
    method Take(need: nat) returns (r: Fetched)
      requires Valid()
      modifies this`incnt, this`bitbuf, this`bitcnt
      ensures
        match PuffInflate.Take(All(), old(Pos()), need)
        case OutOfBits => r.Jumped?
        case Taken(v, q) => r == Got(v) && Valid() && Pos() == q
    {
      hide Low, Shr, Bits, LowValue;
      ghost var p, all := Pos(), All();
      var val, jumped := Fill(need);
      if jumped {
        return Jumped;
      }
      ValueSplits(all[p..8 * incnt], need);
      assert all[p..8 * incnt][..need] == all[p..p + need] && all[p..8 * incnt][need..] == all[p + need..8 * incnt];
      bitbuf := Shr(val, need);
      bitcnt := bitcnt - need;
      return Got(Low(val, need));
    }

    /** The loop of bits: loads at least `need` bits. */
    method Fill(need: nat) returns (val: nat, jumped: bool)
      requires Valid()
      modifies this`incnt, this`bitcnt
      ensures jumped <==> old(Pos()) + need > |All()|
      ensures !jumped ==>
        && need <= bitcnt < need + 8 && Pos() == old(Pos()) && incnt <= inlen && bitcnt <= 8 * incnt
        && val == LowValue(All()[Pos()..8 * incnt])
    {
      hide Bits, LowValue, Pow2;
      ghost var p, all := Pos(), All();
      val, jumped := bitbuf, false;
      while bitcnt < need
        invariant incnt <= inlen && 0 <= bitcnt == 8 * incnt - p
        invariant val == LowValue(all[p..8 * incnt])
        invariant bitcnt < 8 || bitcnt < need + 8
        decreases need - bitcnt
      {
        if incnt == inlen {
          jumped := true;
          return;
        }
        ByteJoins(input[..inlen], p, incnt);
        val := val + input[incnt] * Pow2(bitcnt);
        incnt := incnt + 1;
        bitcnt := bitcnt + 8;
      }
    }

    /** The bits as decode gets them: those in the buffer, and the input behind what has been fetched. */
    ghost predicate Sees(all: seq<bool>)
      reads this, input
    {
      && inlen <= input.Length && incnt <= inlen && 0 <= bitcnt < 8 && bitcnt <= 8 * incnt
      && Ahead(all) && bitbuf == LowValue(all[Pos()..8 * incnt])
    }

    /** What has not been fetched is input. */
    ghost predicate Ahead(all: seq<bool>)
      requires inlen <= input.Length && incnt <= inlen
      reads this, input
    {
      |all| == |All()| && all[8 * incnt..] == All()[8 * incnt..]
    }

    lemma SeesInput()
      requires inlen <= input.Length
      ensures Valid() <==> Sees(All()) && Stored0()
    {
    }

    /** The bits from position p on that have been fetched are in `buf`. */
    ghost predicate Buffered(all: seq<bool>, p: nat, buf: nat)
      reads this, input
    {
      && inlen <= input.Length && incnt <= inlen && p <= 8 * incnt <= p + 8
      && Ahead(all) && buf == LowValue(all[p..8 * incnt])
    }

    /** The bits in the buffer that decode may still take: all, or as many as a code has left. */
    ghost predicate Leaves(p: int, left: int, len: int)
      reads this
    {
      && 1 <= len <= MAXBITS + 1 && 0 <= left <= MAXBITS + 1 - len
      && (left == 8 * incnt - p || (left == MAXBITS + 1 - len && left <= 8 * incnt - p))
      && (8 * incnt - p == 8 ==> left > 0)
    }

    /** Decoding with the code of these lengths has come to bit p, and goes on to `end`. */
    ghost predicate Decoding(all: seq<bool>, lengths: seq<int>, end: Decoded, p: nat, buf: nat, left: int, code: int,
        first: int, index: int, len: int)
      reads this, input
    {
      && Buffered(all, p, buf) && Leaves(p, left, len) && 0 <= first <= code
      && index == Sum(Built(lengths).count, len) && Scan(Built(lengths), all, p, len, code, first) == end
    }

    /** decode. After -9, bytes have been fetched, but the buffer is as it was. */
    method Decode(h: Huffman, ghost lengths: seq<int>, ghost all: seq<bool>) returns (r: Fetched)
      requires Sees(all) && h.Stores(lengths)
      modifies this`incnt, this`bitbuf, this`bitcnt
      ensures 0 <= old(Pos()) <= |all| && incnt <= inlen <= input.Length
      ensures
        match PuffCode.Decode(Built(lengths), all, old(Pos()))
        case Starved => r.Jumped?
        case NoCode(q) =>
          r == Got(-9) && old(incnt) <= incnt == (q + 7) / 8 && bitbuf == old(bitbuf) && bitcnt == old(bitcnt)
        case Symbol(s, q) => r == Got(s) && Sees(all) && Pos() == q
    {
      hide Bits, LowValue, Scan, Huffman.Stores, Built, Sum, Decoding;
      ghost var p: nat, t := Pos(), Built(lengths);
      ghost var end := Scan(t, all, p, 1, 0, 0);
      var buf: nat, left := bitbuf, bitcnt;
      var code, first, index, len := 0, 0, 0, 1;
      DecodingStarts(all, lengths);
      while true
        invariant Decoding(all, lengths, end, p, buf, left, code, first, index, len)
        invariant 0 <= left && 1 <= len <= MAXBITS + 1 && (len == 1 || left > 0)
        invariant (8 * incnt - p - bitcnt + len - 1) % 8 == 0
        invariant p + 1 == old(Pos()) + len && bitcnt == old(bitcnt) && bitbuf == old(bitbuf)
        decreases MAXBITS + 1 - len, if left == 0 then 1 else 0
      {
        var found;
        found, buf, code, first, index, len, p :=
          DecodeBuffered(h, all, lengths, end, p, buf, left, code, first, index, len);
        if found {
          return Got(code);
        }
        Drained(all, lengths, end, p, buf, code, first, index, len);
        left := MAXBITS + 1 - len;
        if left == 0 {
          break;
        }
        if incnt == inlen {
          return Jumped;
        }
        buf, left := Refill(all, lengths, end, p, buf, code, first, index, len, left);
      }
      return Got(-9);
    }

    /** The end of decode's outer loop: fetches a byte. */
    method Refill(ghost all: seq<bool>, ghost lengths: seq<int>, ghost end: Decoded, ghost p: nat, ghost buf0: nat,
        ghost code: int, ghost first: int, ghost index: int, ghost len: int, left0: int)
      returns (buf: nat, left: int)
      requires Decoding(all, lengths, end, p, buf0, 0, code, first, index, len) && left0 == MAXBITS + 1 - len > 0
      requires incnt < inlen
      modifies this`incnt
      ensures left > 0 && Decoding(all, lengths, end, p, buf, left, code, first, index, len) && incnt == old(incnt) + 1
    {
      hide Bits, LowValue, Scan, Built, Sum;
      NextByte(all, p);
      buf, left := input[incnt], left0;
      incnt := incnt + 1;
      if left > 8 {
        left := 8;
      }
    }

    /** With the buffer used up, decoding ends if the code is at its longest or there is no more input. */
    lemma Drained(all: seq<bool>, lengths: seq<int>, end: Decoded, p: nat, buf: nat, code: int, first: int,
        index: int, len: int)
      requires Decoding(all, lengths, end, p, buf, 0, code, first, index, len)
      ensures 1 <= len <= MAXBITS + 1 && p <= 8 * incnt && incnt <= inlen
      ensures len == MAXBITS + 1 ==> end == NoCode(p) && incnt == (p + 7) / 8
      ensures len <= MAXBITS ==> p == 8 * incnt
      ensures len <= MAXBITS && incnt == inlen ==> end.Starved?
    {
      hide Bits, LowValue, Built, Sum;
    }

    lemma DecodingStarts(all: seq<bool>, lengths: seq<int>)
      requires Sees(all)
      ensures Proper(Built(lengths)) && 0 <= Pos() <= |all| && incnt <= inlen <= input.Length
      ensures Decoding(all, lengths, Scan(Built(lengths), all, Pos(), 1, 0, 0), Pos(), bitbuf, bitcnt, 0, 0, 0, 1)
    {
      hide Bits, LowValue, Scan, Built;
      SumOfNothing(Built(lengths));
    }

    /** The inner loop of decode: takes the bits that are in the buffer. If it finds a symbol, that
        is returned as the code. */
    method DecodeBuffered(h: Huffman, ghost all: seq<bool>, ghost lengths: seq<int>, ghost end: Decoded, ghost p: nat,
        buf: nat, left: int, code: int, first: int, index: int, len: int)
      returns (found: bool, buf': nat, code': int, first': int, index': int, len': int, ghost p': nat)
      requires h.Stores(lengths) && Decoding(all, lengths, end, p, buf, left, code, first, index, len)
      requires left >= 0 && (8 * incnt - p - bitcnt + len - 1) % 8 == 0
      modifies this`bitbuf, this`bitcnt
      ensures found ==> end == Symbol(code', p') && Sees(all) && Pos() == p'
      ensures !found ==>
        && Decoding(all, lengths, end, p', buf', 0, code', first', index', len') && len' == len + left && p' == p + left
        && bitcnt == old(bitcnt) && bitbuf == old(bitbuf)
    {
      hide Bits, LowValue, Scan, Huffman.Stores, Built, Sum, Decoding, Buffered;
      buf', code', first', index', len', p' := buf, code, first, index, len, p;
      ghost var left0 := left;
      var left := left;
      while left > 0
        invariant left >= 0 && Decoding(all, lengths, end, p', buf', left, code', first', index', len')
        invariant p' - p == len' - len && bitcnt == old(bitcnt) && bitbuf == old(bitbuf) && len' + left == len + left0
      {
        DecodingStep(h, all, lengths, end, p', buf', left, code', first', index', len');
        left := left - 1;
        code' := code' + buf' % 2;
        buf' := buf' / 2;
        p' := p' + 1;
        var count := h.count[len'];
        if code' < first' + count {
          FoundAt(all, p', buf', bitcnt - len');
          bitbuf := buf';
          bitcnt := (bitcnt - len') % 8;
          return true, buf', h.symbol[index' + (code' - first')], first', index', len', p';
        }
        index' := index' + count;
        first' := first' + count;
        first' := 2 * first';
        code' := 2 * code';
        len' := len' + 1;
      }
      found := false;
    }

    /** stored */
    method StoredBlock() returns (err: int)
      requires Valid()
      modifies this`incnt, this`bitbuf, this`bitcnt, this`outcnt, this`written, out
      ensures 0 <= old(Pos()) <= |All()|
      ensures Ends(Stored(All(), old(Pos()), old(written), Space()), err)
    {
      hide Bits, LowValue, ByteAt, BytesAt;
      assert (Pos() + 7) / 8 * 8 == 8 * incnt;
      bitbuf := 0;
      bitcnt := 0;
      NothingBuffered();
      if incnt + 4 > inlen {
        return 2;
      }
      var len;
      err, len := StoredLength();
      if err != 0 {
        return;
      }
      if incnt + len > inlen {
        return 2;
      }
      if out != null && outcnt + len > outlen {
        return 1;
      }
      CopyInput(len);
      return 0;
    }

    /** The length of a stored block, checked against its one's complement */
    method StoredLength() returns (err: int, len: nat)
      requires inlen <= input.Length && incnt + 4 <= inlen
      modifies this`incnt
      ensures
        var k := old(incnt);
        var low, high := ByteAt(All(), 8 * k), ByteAt(All(), 8 * k + 8);
        if ByteAt(All(), 8 * k + 16) as int != 255 - low then err == -2 && incnt == k + 3
        else if ByteAt(All(), 8 * k + 24) as int != 255 - high then err == -2 && incnt == k + 4
        else err == 0 && incnt == k + 4 && len == low as int + 256 * high
    {
      hide Bits, LowValue, ByteAt;
      ByteOfInput(incnt);
      ByteOfInput(incnt + 1);
      ByteOfInput(incnt + 2);
      ByteOfInput(incnt + 3);
      var low: int, high: int := input[incnt], input[incnt + 1];
      incnt := incnt + 2;
      len := low + 256 * high;
      incnt := incnt + 1;
      if input[incnt - 1] as int != 255 - low {
        return -2, len;
      }
      incnt := incnt + 1;
      if input[incnt - 1] as int != 255 - high {
        return -2, len;
      }
      err := 0;
    }

    /** The last part of stored: copies len bytes, or counts them when scanning. */
    method CopyInput(len: nat)
      requires Stored0() && inlen <= input.Length && incnt + len <= inlen && (out != null ==> outcnt + len <= outlen)
      requires bitcnt == 0 && bitbuf == 0
      modifies this`incnt, this`outcnt, this`written, out
      ensures Valid() && incnt == old(incnt) + len && All() == old(All())
      ensures written == old(written) + BytesAt(All(), 8 * old(incnt), len)
    {
      hide Bits, LowValue, ByteAt;
      BytesOfInput(incnt, len);
      ghost var k, before, more := incnt, written, BytesAt(All(), 8 * incnt, len);
      if out != null {
        var left := len;
        while left > 0
          invariant 0 <= left <= len && incnt == k + len - left && Stored0() && outcnt + left <= outlen
          invariant written == before + more[..len - left] && All() == old(All())
          invariant input[..inlen] == old(input[..inlen])
        {
          left := left - 1;
          assert more[len - left - 1] == input[incnt];
          out[outcnt] := input[incnt];
          outcnt := outcnt + 1;
          incnt := incnt + 1;
          written := written + [more[len - left - 1]];
          assert more[..len - left] == more[..len - left - 1] + [more[len - left - 1]];
        }
        assert more[..len] == more;
      } else {
        outcnt := outcnt + len;
        incnt := incnt + len;
        written := written + more;
      }
      NothingBuffered();
    }

    lemma NothingBuffered()
      requires inlen <= input.Length && incnt <= inlen
      ensures LowValue(All()[8 * incnt..8 * incnt]) == 0
    {
    }

    lemma ByteOfInput(k: nat)
      requires inlen <= input.Length && k < inlen
      ensures ByteAt(All(), 8 * k) == input[k]
    {
      hide LowValue, Bits;
      ByteJoins(input[..inlen], 8 * k, k);
    }

    lemma BytesOfInput(k: nat, n: nat)
      requires inlen <= input.Length && k + n <= inlen
      ensures BytesAt(All(), 8 * k, n) == input[k..k + n]
    {
      hide LowValue, Bits, ByteAt;
      forall i | 0 <= i < n ensures ByteAt(All(), 8 * k + 8 * i) == input[k + i] {
        ByteOfInput(k + i);
        assert 8 * k + 8 * i == 8 * (k + i);
      }
    }

    /** decode, with a code of at most n symbols */
    method DecodeNext(h: Huffman, ghost lengths: seq<int>, ghost n: nat) returns (r: Fetched)
      requires Valid() && h.Stores(lengths) && |lengths| <= n
      modifies this`incnt, this`bitbuf, this`bitcnt
      ensures 0 <= old(Pos()) <= |All()| && TableFor(Built(lengths), n)
      ensures
        match Next(Built(lengths), n, All(), old(Pos()))
        case Starved => r.Jumped?
        case NoCode(q) => r == Got(-9) && incnt == (q + 7) / 8
        case Symbol(s, q) => r == Got(s) && Valid() && Pos() == q
    {
      hide Scan, Built, Bits, LowValue, Huffman.Stores;
      BuiltFor(lengths);
      SeesInput();
      r := Decode(h, lengths, All());
      SeesInput();
    }

    /** The length and distance of a copy, or an error */
    method TakePair(symbol: int, distcode: Huffman, ghost distances: seq<int>) returns (err: int, len: nat, dist: nat)
      requires Valid() && distcode.Stores(distances) && |distances| <= MAXDCODES && symbol >= 0
      modifies this`incnt, this`bitbuf, this`bitcnt
      ensures 0 <= old(Pos()) <= |All()| && TableFor(Built(distances), MAXDCODES)
      ensures
        match DecodePair(All(), old(Pos()), symbol, Built(distances), written)
        case NoPair(end) => err != 0 && Ends(end, err)
        case Pair(n, d, q) => err == 0 && Valid() && Pos() == q && len == n && dist == d
    {
      hide Next, Built, Bits, LowValue, TableFor, Huffman.Stores;
      TableSizes();
      PosIsInput();
      BuiltFor(distances);
      len, dist := 0, 0;
      if symbol >= |LENS| {
        return -9, 0, 0;
      }
      var extra := Take(LEXT[symbol]);
      if extra.Jumped? {
        return 2, 0, 0;
      }
      len := LENS[symbol] + extra.v;
      var d := DecodeNext(distcode, distances, MAXDCODES);
      if d.Jumped? {
        return 2, 0, 0;
      }
      if d.v < 0 {
        return d.v, 0, 0;
      }
      var more := Take(DEXT[d.v]);
      if more.Jumped? {
        return 2, 0, 0;
      }
      dist := DISTS[d.v] + more.v;
      if dist > outcnt {
        return -10, 0, 0;
      }
      err := 0;
    }

    lemma PosIsInput()
      requires Valid()
      ensures 0 <= Pos() <= |All()| && incnt == (Pos() + 7) / 8
    {
    }

    /** Copies len bytes from dist bytes back, or counts them when scanning. */
    method CopyBack(len: nat, dist: nat)
      requires Valid() && 0 < dist <= outcnt && (out != null ==> outcnt + len <= outlen)
      modifies this`outcnt, this`written, out
      ensures Valid() && Pos() == old(Pos()) && All() == old(All())
      ensures written == Copied(old(written), dist, len)
    {
      hide Bits, LowValue;
      ghost var target := Copied(written, dist, len);
      ghost var all := All();
      if out != null {
        var left := len;
        while left > 0
          invariant left >= 0 && Valid() && dist <= outcnt && outcnt + left <= outlen
          invariant Copied(written, dist, left) == target && All() == all
        {
          left := left - 1;
          ghost var b := written[|written| - dist];
          assert out[..outcnt][outcnt - dist] == b;
          out[outcnt] := out[outcnt - dist];
          outcnt := outcnt + 1;
          written := written + [b];
          assert input[..inlen] == old(input[..inlen]);
        }
      } else {
        outcnt := outcnt + len;
        written := target;
      }
    }

    /** A literal byte */
    method PutLiteral(symbol: int)
      requires Valid() && 0 <= symbol < 256 && (out != null ==> outcnt < outlen)
      modifies this`outcnt, this`written, out
      ensures Valid() && Pos() == old(Pos()) && All() == old(All())
      ensures written == old(written) + [symbol]
    {
      hide Bits, LowValue;
      if out != null {
        out[outcnt] := symbol;
      }
      outcnt := outcnt + 1;
      written := written + [symbol];
      assert input[..inlen] == old(input[..inlen]);
    }

    /** codes */
    method CodesBlock(lencode: Huffman, distcode: Huffman, ghost lengths: seq<int>, ghost distances: seq<int>)
      returns (err: int)
      requires Valid() && lencode.Stores(lengths) && |lengths| <= FIXLCODES
      requires distcode.Stores(distances) && |distances| <= MAXDCODES
      modifies this`incnt, this`bitbuf, this`bitcnt, this`outcnt, this`written, out
      ensures 0 <= old(Pos()) <= |All()|
      ensures Ends(CodesOf(All(), old(Pos()), lengths, distances, old(written), Space()), err)
    {
      hide Next, Built, Bits, LowValue, TableFor, Huffman.Stores, DecodePair, Copied;
      PosIsInput();
      BuiltFor(lengths);
      BuiltFor(distances);
      ghost var end := CodesOf(All(), Pos(), lengths, distances, written, Space());
      ghost var all := All();
      while true
        invariant Valid() && All() == all && Pos() <= |all|
        invariant Codes(all, Pos(), Built(lengths), Built(distances), written, Space()) == end
        decreases |all| - Pos()
      {
        PosIsInput();
        var next := DecodeNext(lencode, lengths, FIXLCODES);
        if next.Jumped? {
          return 2;
        }
        var symbol := next.v;
        if symbol < 0 {
          return symbol;
        }
        if symbol < 256 {
          if out != null && outcnt == outlen {
            return 1;
          }
          PutLiteral(symbol);
        } else if symbol > 256 {
          var failed, len, dist := TakePair(symbol - 257, distcode, distances);
          if failed != 0 {
            return failed;
          }
          if out != null && outcnt + len > outlen {
            return 1;
          }
          CopyBack(len, dist);
        } else {
          return 0;
        }
      }
    }

    /** fixed */
    method FixedBlock() returns (err: int)
      requires Valid()
      modifies this`incnt, this`bitbuf, this`bitcnt, this`outcnt, this`written, out
      ensures 0 <= old(Pos()) <= |All()|
      ensures Ends(CodesOf(All(), old(Pos()), FixedLengths(), FixedDistances(), old(written), Space()), err)
    {
      hide Bits, LowValue, CodesOf, CountOf, FirstLeft, Sorted;
      var lencode := new Huffman(FIXLCODES);
      var distcode := new Huffman(MAXDCODES);
      var lengths := new int[FIXLCODES];
      SetLengths(lengths, 0, 144, 8);
      SetLengths(lengths, 144, 256, 9);
      SetLengths(lengths, 256, 280, 7);
      SetLengths(lengths, 280, FIXLCODES, 8);
      assert lengths[0..FIXLCODES] == FixedLengths();
      FixedCodesFit();
      var left := lencode.Construct(lengths, 0, FIXLCODES);
      SetLengths(lengths, 0, MAXDCODES, 5);
      assert lengths[0..MAXDCODES] == FixedDistances();
      left := distcode.Construct(lengths, 0, MAXDCODES);
      err := CodesBlock(lencode, distcode, FixedLengths(), FixedDistances());
    }

    /** The first loops of dynamic: the lengths of the code for lengths */
    method TakeOrdered(lengths: array<int>, ncode: nat) returns (jumped: bool)
      requires Valid() && ncode <= 19 <= lengths.Length
      modifies this`incnt, this`bitbuf, this`bitcnt, lengths
      ensures 0 <= old(Pos()) <= |All()|
      ensures
        match ReadOrdered(All(), old(Pos()), 0, ncode, Repeat(0, 19))
        case NoLens(_) => jumped
        case Lens(codes, q) => !jumped && Valid() && Pos() == q && lengths[0..19] == codes
    {
      hide Bits, LowValue, Ordered;
      OrderIsPermutation();
      PosIsInput();
      ghost var all, codes := All(), Repeat(0, 19);
      NoneOrdered(lengths[..]);
      ghost var end := ReadOrdered(all, Pos(), 0, ncode, codes);
      var index := 0;
      while index < ncode
        invariant 0 <= index <= ncode && Valid() && All() == all && |codes| == 19 && Pos() <= |all|
        invariant ReadOrdered(all, Pos(), index, ncode, codes) == end
        invariant Ordered(lengths[..], codes, index)
      {
        PosIsInput();
        var v := Take(3);
        if v.Jumped? {
          return true;
        }
        OrderedPut(lengths[..], codes, index, v.v);
        codes := codes[ORDER[index] := v.v];
        lengths[ORDER[index]] := v.v;
        index := index + 1;
      }
      ZeroRest(lengths, ncode, codes);
      jumped := false;
    }

    /** The repeat instructions of dynamic: how often to repeat which length, or an error. */
    method TakeRepeat(symbol: int, lengths: array<int>, index: nat, total: nat) returns (err: int, n: nat, len: int)
      requires Valid() && index < total <= lengths.Length && 16 <= symbol <= 18
      modifies this`incnt, this`bitbuf, this`bitcnt
      ensures 0 <= old(Pos()) <= |All()|
      ensures
        match ReadRepeat(All(), old(Pos()), symbol, lengths[..index], total, written)
        case NoLens(end) => err != 0 && Ends(end, err)
        case Lens(more, q) =>
          && err == 0 && Valid() && Pos() == q
          && more == lengths[..index] + Repeat(len, n) && 0 < n <= total - index
    {
      hide Bits, LowValue;
      PosIsInput();
      n, len := 0, 0;
      var times;
      if symbol == 16 {
        if index == 0 {
          return -5, 0, 0;
        }
        len := lengths[index - 1];
        times := Take(2);
        if times.Jumped? {
          return 2, 0, 0;
        }
        n := 3 + times.v;
      } else if symbol == 17 {
        times := Take(3);
        if times.Jumped? {
          return 2, 0, 0;
        }
        n := 3 + times.v;
      } else {
        times := Take(7);
        if times.Jumped? {
          return 2, 0, 0;
        }
        n := 11 + times.v;
      }
      PosIsInput();
      if index + n > total {
        return -6, n, len;
      }
      err := 0;
    }

    /** decode, with a code of at most n symbols, also where bits that failed before are still in the buffer */
    method DecodeSeen(h: Huffman, ghost lengths: seq<int>, ghost n: nat, ghost seen: seq<bool>) returns (r: Fetched)
      requires Sees(seen) && h.Stores(lengths) && |lengths| <= n
      modifies this`incnt, this`bitbuf, this`bitcnt
      ensures 0 <= old(Pos()) <= |seen| && TableFor(Built(lengths), n) && incnt <= inlen <= input.Length
      ensures
        match Next(Built(lengths), n, seen, old(Pos()))
        case Starved => r.Jumped?
        case NoCode(q) =>
          r == Got(-9) && old(incnt) <= incnt == (q + 7) / 8 && bitbuf == old(bitbuf) && bitcnt == old(bitcnt)
        case Symbol(s, q) => r == Got(s) && Sees(seen) && Pos() == q
    {
      hide Scan, Built, Bits, LowValue, Huffman.Stores;
      BuiltFor(lengths);
      r := Decode(h, lengths, seen);
    }

    /** After decode has failed, it sees the bits in the buffer again, and then what has not been fetched. */
    lemma SeesAgain(seen: seq<bool>, m: nat) returns (again: seq<bool>)
      requires inlen <= input.Length && m <= incnt <= inlen && 0 <= bitcnt < 8 && bitcnt <= 8 * m
      requires |seen| == |All()| && seen[8 * m..] == All()[8 * m..] && bitbuf == LowValue(seen[8 * m - bitcnt..8 * m])
      ensures Sees(again)
    {
      hide Bits, LowValue;
      var stale, rest := seen[8 * m - bitcnt..8 * m], All()[8 * incnt..];
      again := seen[..Pos()] + stale + rest;
      assert again[Pos()..8 * incnt] == stale && again[8 * incnt..] == rest;
    }

    /** The loop body of dynamic that reads a length or repeats lengths. */
    method TakeLength(lencode: Huffman, ghost codes: seq<int>, lengths: array<int>, index: nat, total: nat,
                      ghost seen: seq<bool>) returns (err: int, next: nat)
      requires Sees(seen) && Stored0() && lencode.Stores(codes) && |codes| == 19 && index < total <= lengths.Length
      requires lengths != lencode.count && lengths != lencode.symbol && TableFor(Built(codes), 19)
      requires seen == All() || CountOf(codes, 0) == 19
      modifies this`incnt, this`bitbuf, this`bitcnt, lengths
      ensures 0 <= old(Pos()) <= |seen|
      ensures
        match Next(Built(codes), 19, seen, old(Pos()))
        case Starved => err == 2
        case NoCode(q) =>
          && err == 0 && incnt <= inlen && next == index + 1 && lengths[..next] == old(lengths[..index]) + [-9]
          && old(incnt) <= incnt == (q + 7) / 8 && bitbuf == old(bitbuf) && bitcnt == old(bitcnt)
        case Symbol(s, q) =>
          if s < 16 then
            err == 0 && Valid() && Pos() == q && next == index + 1 && lengths[..next] == old(lengths[..index]) + [s]
          else
            match ReadRepeat(All(), q, s, old(lengths[..index]), total, written)
            case NoLens(end) => err != 0 && Ends(end, err)
            case Lens(more, q') =>
              err == 0 && Valid() && Pos() == q' && index < next == |more| && lengths[..next] == more
    {
      hide Bits, LowValue, Next, Built, TableFor, Huffman.Stores, ReadRepeat, CountOf;
      ghost var done := lengths[..index];
      if CountOf(codes, 0) == 19 {
        NoneIsNext(codes, seen, Pos());
      }
      err, next := 0, index;
      var symbol := DecodeSeen(lencode, codes, 19, seen);
      if symbol.Jumped? {
        return 2, index;
      }
      if symbol.v < 16 {
        lengths[index] := symbol.v;
        next := index + 1;
        SeesInput();
        assert lengths[..next] == done + [symbol.v];
      } else {
        SeesInput();
        var n, len;
        err, n, len := TakeRepeat(symbol.v, lengths, index, total);
        if err != 0 {
          return;
        }
        SetLengths(lengths, index, index + n, len);
        next := index + n;
        assert lengths[..next] == done + Repeat(len, n);
      }
    }

    /** The loop of dynamic that reads the lengths of both codes. With no codes for lengths, each length is
        the -9 that decode returns, until the input ends. */
    method TakeLengths(lencode: Huffman, ghost codes: seq<int>, lengths: array<int>, total: nat) returns (err: int)
      requires Valid() && lencode.Stores(codes) && |codes| == 19 && Lengths(codes) && Checked(codes) == 0
      requires total <= lengths.Length
      requires lengths != lencode.count && lengths != lencode.symbol && TableFor(Built(codes), 19)
      modifies this`incnt, this`bitbuf, this`bitcnt, lengths
      ensures 0 <= old(Pos()) <= |All()|
      ensures
        if CountOf(codes, 0) == 19 then
          if FailsFor(All(), old(Pos()), total) then err == 0 && lengths[..total] == Repeat(-9, total)
          else err == 2
        else
          match ReadLengths(All(), old(Pos()), Built(codes), [], total, written)
          case NoLens(end) => err != 0 && Ends(end, err)
          case Lens(both, q) => err == 0 && Valid() && Pos() == q && lengths[..total] == both
    {
      hide Bits, LowValue, Built, TableFor, Huffman.Stores, CountOf, Checked, ReadLengths, Going;
      PosIsInput();
      ghost var start, seen := Pos(), All();
      assert lengths[..0] == [];
      GoingStarts(codes, total);
      var index := 0;
      while index < total
        invariant 0 <= index <= total && lencode.Stores(codes) && Going(codes, seen, start, lengths[..index], total)
        decreases total - index
      {
        err, index, seen := NextLength(lencode, codes, lengths, index, total, seen, start);
        if err != 0 {
          return;
        }
      }
      GoingEnds(codes, seen, start, lengths[..total], total);
      err := 0;
    }

    /** The first lengths have been read, and going on reads the rest. */
    ghost predicate Going(codes: seq<int>, seen: seq<bool>, start: nat, done: seq<int>, total: nat)
      requires |codes| == 19 && TableFor(Built(codes), 19)
      reads this, input, out
    {
      && Sees(seen) && Stored0() && |done| <= total && start <= |All()|
      && if CountOf(codes, 0) == 19 then Failing(start, |done|) && done == Repeat(-9, |done|)
         else
           && seen == All() && 0 <= Pos() <= |All()|
           && ReadLengths(All(), Pos(), Built(codes), done, total, written)
              == ReadLengths(All(), start, Built(codes), [], total, written)
    }

    lemma GoingStarts(codes: seq<int>, total: nat)
      requires Valid() && |codes| == 19 && TableFor(Built(codes), 19) && 0 <= Pos() <= |All()|
      ensures Going(codes, All(), Pos(), [], total)
    {
      hide Bits, LowValue, Built, TableFor, CountOf, ReadLengths;
      SeesInput();
    }

    lemma GoingEnds(codes: seq<int>, seen: seq<bool>, start: nat, done: seq<int>, total: nat)
      requires |codes| == 19 && TableFor(Built(codes), 19) && Going(codes, seen, start, done, total) && |done| == total
      ensures
        if CountOf(codes, 0) == 19 then FailsFor(All(), start, total) && done == Repeat(-9, total)
        else Valid() && ReadLengths(All(), start, Built(codes), [], total, written) == Lens(done, Pos())
    {
      hide Bits, LowValue, Built, TableFor, CountOf;
      SeesInput();
    }

    /** Reads a length, or repeats lengths. */
    method NextLength(lencode: Huffman, ghost codes: seq<int>, lengths: array<int>, index: nat, total: nat,
                      ghost seen: seq<bool>, ghost start: nat) returns (err: int, next: nat, ghost again: seq<bool>)
      requires lencode.Stores(codes) && |codes| == 19 && Lengths(codes) && Checked(codes) == 0
      requires index < total <= lengths.Length && lengths != lencode.count && lengths != lencode.symbol
      requires TableFor(Built(codes), 19) && Going(codes, seen, start, lengths[..index], total)
      modifies this`incnt, this`bitbuf, this`bitcnt, lengths
      ensures err == 0 ==> index < next <= total && Going(codes, again, start, lengths[..next], total)
      ensures err != 0 ==>
        if CountOf(codes, 0) == 19 then !FailsFor(All(), start, total) && err == 2
        else
          var r := ReadLengths(All(), start, Built(codes), [], total, written);
          r.NoLens? && Ends(r.end, err)
    {
      hide Bits, LowValue, Next, Built, TableFor, Huffman.Stores, ReadRepeat, CountOf, Checked, ReadLengths;
      hide FailsFor, FetchedFor;
      PosIsSeen(seen);
      again := seen;
      ghost var m := incnt;
      if CountOf(codes, 0) != 19 {
        LengthsStep(codes, seen, Pos(), lengths[..index], total, written);
      } else {
        NoneIsNext(codes, seen, Pos());
        FailsAgain(All(), start, index, total, bitcnt, m);
      }
      err, next := TakeLength(lencode, codes, lengths, index, total, seen);
      if err == 0 && CountOf(codes, 0) == 19 {
        again := SeesAgain(seen, m);
      }
    }

    lemma PosIsSeen(seen: seq<bool>)
      requires Sees(seen)
      ensures 0 <= Pos() <= |seen| == |All()|
    {
    }

    /** decode has failed n times since the position was q. */
    ghost predicate Failing(q: nat, n: nat)
      reads this
    {
      (bitcnt == 7 <==> q % 8 == 1) && incnt == FetchedFor(q, n)
    }

    /** The code descriptions of dynamic; lencode serves for the code for lengths. If that has no codes, the
        lengths for which there is input are all -9. */
    method TakeBoth(lencode: Huffman, both: array<int>) returns (err: int, nlen: nat, ndist: nat)
      requires Valid() && 0 <= Pos() <= |All()|
      requires lencode.count.Length == MAXBITS + 1 && lencode.symbol.Length == MAXLCODES
      requires lencode.count != lencode.symbol && both != lencode.count && both != lencode.symbol
      requires both.Length == MAXLCODES + MAXDCODES
      modifies this`incnt, this`bitbuf, this`bitcnt, lencode.count, lencode.symbol, both
      ensures
        match ReadBoth(All(), old(Pos()), written)
        case NoBoth(Undefined) => err == 0 && IsFailed(both[..], nlen + ndist)
        case NoBoth(end) => err != 0 && Ends(end, err)
        case Both(n, lengths, q) =>
          && err == 0 && Valid() && Pos() == q && n == nlen
          && nlen + ndist == |lengths| <= both.Length && both[..nlen + ndist] == lengths
    {
      hide Bits, LowValue, Built, Huffman.Stores, CountOf, FirstLeft, TableFor, ReadLengths, ReadOrdered;
      PosIsInput();
      var ncode, jumped;
      nlen, ndist, ncode, jumped := TakeCounts();
      if jumped {
        return 2, 0, 0;
      }
      PosIsInput();
      if nlen > MAXLCODES || ndist > MAXDCODES {
        return -3, nlen, ndist;
      }
      err := TakeLengthCode(lencode, both, ncode);
      if err != 0 {
        return err, nlen, ndist;
      }
      err := TakeLengths(lencode, both[0..19], both, nlen + ndist);
      FailedLengths(both[..], nlen + ndist);
    }

    /** The code for lengths */
    method TakeLengthCode(lencode: Huffman, both: array<int>, ncode: nat) returns (err: int)
      requires Valid() && ncode <= 19
      requires lencode.count.Length == MAXBITS + 1 && lencode.symbol.Length == MAXLCODES
      requires lencode.count != lencode.symbol && both != lencode.count && both != lencode.symbol
      requires both.Length == MAXLCODES + MAXDCODES
      modifies this`incnt, this`bitbuf, this`bitcnt, lencode.count, lencode.symbol, both
      ensures 0 <= old(Pos()) <= |All()|
      ensures
        match ReadOrdered(All(), old(Pos()), 0, ncode, Repeat(0, 19))
        case NoLens(_) => err == 2
        case Lens(codes, q) =>
          && incnt == (q + 7) / 8 && Stored0()
          && if Checked(codes) != 0 then err == -4
             else err == 0 && Valid() && Pos() == q && both[0..19] == codes && lencode.Stores(codes)
                  && TableFor(Built(codes), 19)
    {
      hide Bits, LowValue, Built, Huffman.Stores, CountOf, FirstLeft, TableFor, ReadOrdered;
      var jumped := TakeOrdered(both, ncode);
      if jumped {
        return 2;
      }
      PosIsInput();
      ghost var codes := both[0..19];
      err := lencode.Construct(both, 0, 19);
      if err != 0 {
        return -4;
      }
      BuiltFor(codes);
    }

    /** The tables of dynamic, built from the code descriptions */
    method TakeTables(lencode: Huffman, distcode: Huffman)
      returns (err: int, ghost lengths: seq<int>, ghost distances: seq<int>)
      requires Valid() && 0 <= Pos() <= |All()| && ReadTables(All(), Pos(), written) != NoTables(Undefined)
      requires lencode.count.Length == distcode.count.Length == MAXBITS + 1
      requires lencode.symbol.Length == MAXLCODES && distcode.symbol.Length == MAXDCODES
      requires lencode.count != lencode.symbol && distcode.count != distcode.symbol
      requires distcode.count != lencode.count && distcode.count != lencode.symbol
      requires distcode.symbol != lencode.count && distcode.symbol != lencode.symbol
      modifies this`incnt, this`bitbuf, this`bitcnt, lencode.count, lencode.symbol, distcode.count, distcode.symbol
      ensures
        match ReadTables(All(), old(Pos()), written)
        case NoTables(end) => err != 0 && Ends(end, err)
        case Tables(l, d, q) =>
          err == 0 && Valid() && Pos() == q && lengths == l && distances == d && lencode.Stores(l) && distcode.Stores(d)
    {
      hide Bits, LowValue, Huffman.Stores, CountOf, FirstLeft, ReadBoth;
      lengths, distances := [], [];
      var both := new int[MAXLCODES + MAXDCODES];
      var nlen, ndist;
      err, nlen, ndist := TakeBoth(lencode, both);
      if err != 0 {
        return;
      }
      PosIsInput();
      lengths, distances := both[0..nlen], both[nlen..nlen + ndist];
      assert both[..nlen + ndist][..nlen] == lengths && both[..nlen + ndist][nlen..] == distances;
      err := lencode.Construct(both, 0, nlen);
      if err < 0 || (err > 0 && nlen - lencode.count[0] != 1) {
        err := -7;
        return;
      }
      err := distcode.Construct(both, nlen, ndist);
      if err < 0 || (err > 0 && ndist - distcode.count[0] != 1) {
        err := -8;
        return;
      }
      err := 0;
    }

    /** The three counts at the start of dynamic */
    method TakeCounts() returns (nlen: nat, ndist: nat, ncode: nat, jumped: bool)
      requires Valid()
      modifies this`incnt, this`bitbuf, this`bitcnt
      ensures 0 <= old(Pos()) && jumped == (old(Pos()) + 14 > |All()|)
      ensures !jumped ==>
        var bits, p := All(), old(Pos());
        && Valid() && Pos() == p + 14 && nlen == LowValue(bits[p..p + 5]) + 257
        && ndist == LowValue(bits[p + 5..p + 10]) + 1 && ncode == LowValue(bits[p + 10..p + 14]) + 4 && ncode <= 19
    {
      hide Bits, LowValue;
      ghost var p := Pos();
      nlen, ndist, ncode, jumped := 0, 0, 0, true;
      var v := Take(5);
      if v.Jumped? {
        return;
      }
      nlen := v.v + 257;
      v := Take(5);
      if v.Jumped? {
        return;
      }
      ndist := v.v + 1;
      v := Take(4);
      if v.Jumped? {
        return;
      }
      ncode := v.v + 4;
      jumped := false;
      FourBits(All()[p + 10..p + 14]);
    }

    /** dynamic */
    method DynamicBlock() returns (err: int)
      requires Valid() && 0 <= Pos() <= |All()| && !Block(All(), Pos(), 2, written, Space()).Undefined?
      modifies this`incnt, this`bitbuf, this`bitcnt, this`outcnt, this`written, out
      ensures Ends(Block(All(), old(Pos()), 2, old(written), Space()), err)
    {
      hide Bits, LowValue, CodesOf, ReadTables;
      var lencode := new Huffman(MAXLCODES);
      var distcode := new Huffman(MAXDCODES);
      ghost var lengths, distances;
      err, lengths, distances := TakeTables(lencode, distcode);
      if err != 0 {
        return;
      }
      err := CodesBlock(lencode, distcode, lengths, distances);
    }

    /** A block of the given type */
    method AnyBlock(kind: nat) returns (err: int)
      requires Valid() && 0 <= Pos() <= |All()| && !Block(All(), Pos(), kind, written, Space()).Undefined?
      modifies this`incnt, this`bitbuf, this`bitcnt, this`outcnt, this`written, out
      ensures Ends(Block(All(), old(Pos()), kind, old(written), Space()), err)
    {
      hide Bits, LowValue, Block, Stored, CodesOf;
      PosIsInput();
      BlockKinds(All(), Pos(), written, Space());
      if kind == 0 {
        err := StoredBlock();
      } else if kind == 1 {
        err := FixedBlock();
      } else if kind == 2 {
        err := DynamicBlock();
      } else {
        err := -1;
      }
    }

    /** The loop of puff over the blocks. */
    method Blocks() returns (err: int)
      requires Valid() && 0 <= Pos() <= |All()| && !Inflate(All(), Pos(), written, Space()).Undefined?
      modifies this`incnt, this`bitbuf, this`bitcnt, this`outcnt, this`written, out
      ensures Ends(Inflate(All(), old(Pos()), old(written), Space()), err)
    {
      hide Bits, LowValue, Block;
      ghost var all, end := All(), Inflate(All(), Pos(), written, Space());
      while true
        invariant Valid() && All() == all && 0 <= Pos() <= |all|
        invariant Inflate(all, Pos(), written, Space()) == end
        decreases |all| - Pos()
      {
        var last, kind, jumped := TakeHeader();
        if jumped {
          return 2;
        }
        err := AnyBlock(kind);
        if err != 0 {
          return;
        }
        if last {
          return;
        }
      }
    }

    method TakeHeader() returns (last: bool, kind: nat, jumped: bool)
      requires Valid()
      modifies this`incnt, this`bitbuf, this`bitcnt
      ensures 0 <= old(Pos()) && jumped == (old(Pos()) + 3 > |All()|)
      ensures !jumped ==>
        && Valid() && Pos() == old(Pos()) + 3 && last == All()[old(Pos())]
        && kind == LowValue(All()[old(Pos()) + 1..old(Pos()) + 3])
    {
      hide Bits, LowValue;
      last, kind, jumped := false, 0, true;
      ghost var p := Pos();
      var v := Take(1);
      if v.Jumped? {
        return;
      }
      OneBitValue(All(), p);
      last := v.v == 1;
      v := Take(2);
      if v.Jumped? {
        return;
      }
      kind := v.v;
      jumped := false;
    }

    /** What is left in the buffer when a symbol ends at p */
    lemma FoundAt(all: seq<bool>, p: nat, buf: nat, k: int)
      requires Buffered(all, p, buf) && 8 * incnt - p < 8 && (8 * incnt - p - k) % 8 == 0
      ensures k % 8 == 8 * incnt - p && inlen <= input.Length && incnt <= inlen
      ensures Ahead(all) && buf == LowValue(all[p..8 * incnt])
    {
    }

    lemma DecodingStep(h: Huffman, all: seq<bool>, lengths: seq<int>, end: Decoded, p: nat, buf: nat, left: int,
        code: int, first: int, index: int, len: int)
      requires h.Stores(lengths) && Decoding(all, lengths, end, p, buf, left, code, first, index, len) && left > 0
      ensures h.count.Length == MAXBITS + 1 && 1 <= len <= MAXBITS && Buffered(all, p + 1, buf / 2)
      ensures 8 * incnt - p <= 8
      ensures
        var next, count := code + buf % 2, h.count[len];
        if next < first + count then
          0 <= index + (next - first) < h.symbol.Length && end == Symbol(h.symbol[index + (next - first)], p + 1)
        else Decoding(all, lengths, end, p + 1, buf / 2, left - 1, 2 * next, 2 * (first + count), index + count,
          len + 1)
    {
      hide Bits, LowValue, Scan, Huffman.Stores, Built, Sum;
      BufferStep(all, p, buf);
      ScanStep(h, lengths, all, p, len, code, first);
    }

    lemma BufferStep(all: seq<bool>, p: nat, buf: nat)
      requires Buffered(all, p, buf) && p < 8 * incnt
      ensures (buf % 2 == 1 <==> all[p]) && Buffered(all, p + 1, buf / 2)
    {
      hide Bits;
      assert all[p..8 * incnt][1..] == all[p + 1..8 * incnt];
    }

    lemma NextByte(all: seq<bool>, p: nat)
      requires inlen <= input.Length && incnt < inlen && p == 8 * incnt && Ahead(all)
      ensures input[incnt] == LowValue(all[p..8 * (incnt + 1)])
      ensures all[8 * (incnt + 1)..] == All()[8 * (incnt + 1)..]
    {
      hide Bits, LowValue;
      assert all[p..8 * (incnt + 1)] == all[8 * incnt..][..8] && All()[p..8 * (incnt + 1)] == All()[8 * incnt..][..8];
      assert all[8 * (incnt + 1)..] == all[8 * incnt..][8..] && All()[8 * (incnt + 1)..] == All()[8 * incnt..][8..];
      ByteJoins(input[..inlen], p, incnt);
    }
  }

  lemma {:induction false} NoneOfLength(codes: seq<int>, len: int)
    requires CountOf(codes, 0) == |codes| && len != 0
    ensures CountOf(codes, len) == 0
  {
    if codes != [] {
      CountIsAtMost(codes[..|codes| - 1], 0);
      NoneOfLength(codes[..|codes| - 1], len);
    }
  }

  lemma {:induction false} CountIsAtMost(codes: seq<int>, len: int)
    ensures CountOf(codes, len) <= |codes|
  {
    if codes != [] { CountIsAtMost(codes[..|codes| - 1], len); }
  }

  lemma {:induction false} NoneIsFound(codes: seq<int>, bits: seq<bool>, p: nat, len: nat, code: nat)
    requires CountOf(codes, 0) == |codes| && p <= |bits| && 1 <= len <= MAXBITS + 1
    ensures Proper(Built(codes))
    ensures Scan(Built(codes), bits, p, len, code, 0)
      == if p + MAXBITS + 1 - len <= |bits| then NoCode(p + MAXBITS + 1 - len) else Starved
    decreases MAXBITS + 1 - len
  {
    hide Built, CountOf, Sum, Proper;
    BuiltCounts(codes);
    if len <= MAXBITS && p < |bits| {
      hide Scan;
      NoneOfLength(codes, len);
      PassesLength(Built(codes), bits, p, len, code);
      NoneIsFound(codes, bits, p + 1, len + 1, 2 * (code + if bits[p] then 1 else 0));
    }
  }

  /** With no codes of a length decode goes on to the next one. */
  lemma PassesLength(t: Table, bits: seq<bool>, p: nat, len: nat, code: nat)
    requires Proper(t) && p < |bits| && 1 <= len <= MAXBITS && t.count[len] == 0
    ensures Scan(t, bits, p, len, code, 0)
      == Scan(t, bits, p + 1, len + 1, 2 * (code + if bits[p] then 1 else 0), 0)
  {
    hide Sum;
  }

  /** The first n lengths are what decode returns when it fails. */
  predicate IsFailed(lengths: seq<int>, n: nat) {
    n <= |lengths| && forall i | 0 <= i < n :: lengths[i] == -9
  }

  /** What decode fetches when it fails with c bits in the buffer and m bytes behind */
  lemma FetchesAgain(bits: seq<bool>, q: nat, c: int, m: nat)
    requires 0 <= c < 8 && (c == 7 <==> q % 8 == 1) && |bits| % 8 == 0
    ensures (8 * m - c + 22) / 8 == m + FailingFetch(q)
    ensures 8 * m - c + 15 > |bits| ==> m + FailingFetch(q) > |bits| / 8
  {
  }

  /** With c bits in the buffer, and m bytes fetched while decode has failed n times */
  lemma FailsAgain(bits: seq<bool>, q: nat, n: nat, total: nat, c: int, m: nat)
    requires 0 <= c < 8 && (c == 7 <==> q % 8 == 1) && m == FetchedFor(q, n) && n < total
    requires |bits| % 8 == 0
    ensures (8 * m - c + 22) / 8 == FetchedFor(q, n + 1)
    ensures 8 * m - c + 15 > |bits| ==> !FailsFor(bits, q, total)
  {
    hide FailingFetch;
    var k := FailingFetch(q);
    FetchesAgain(bits, q, c, m);
    assert k * (n + 1) == k * n + k && k * total == k * (n + 1) + k * (total - n - 1);
    assert k * (total - n - 1) >= 0;
  }

  lemma FailedLengths(lengths: seq<int>, n: nat)
    requires n <= |lengths|
    ensures lengths[..n] == Repeat(-9, n) ==> IsFailed(lengths, n)
  {
    assert forall i | 0 <= i < n :: lengths[..n][i] == lengths[i];
  }

  /** Without codes decode fails after fifteen bits. */
  lemma NoneIsNext(codes: seq<int>, bits: seq<bool>, p: nat)
    requires |codes| == 19 && CountOf(codes, 0) == 19 && p <= |bits| && TableFor(Built(codes), 19)
    ensures Next(Built(codes), 19, bits, p) == if p + 15 <= |bits| then NoCode(p + 15) else Starved
  {
    hide Built, CountOf, Scan;
    NoneIsFound(codes, bits, p, 1, 0);
  }

  lemma LengthsStep(codes: seq<int>, bits: seq<bool>, p: nat, lengths: seq<int>, total: nat, out: seq<byte>)
    requires Lengths(codes) && |codes| == 19 && Checked(codes) == 0 && CountOf(codes, 0) != 19
    requires p <= |bits| && |lengths| < total && TableFor(Built(codes), 19)
    ensures
      var t := Built(codes);
      match Next(t, 19, bits, p)
      case Starved => ReadLengths(bits, p, t, lengths, total, out) == NoLens(Starve)
      case NoCode(_) => false
      case Symbol(s, q) =>
        if s < 16 then
          ReadLengths(bits, p, t, lengths, total, out) == ReadLengths(bits, q, t, lengths + [s], total, out)
        else
          match ReadRepeat(bits, q, s, lengths, total, out)
          case NoLens(end) => ReadLengths(bits, p, t, lengths, total, out) == NoLens(end)
          case Lens(more, q') =>
            ReadLengths(bits, p, t, lengths, total, out) == ReadLengths(bits, q', t, more, total, out)
  {
    hide Built, TableFor, CountOf, Checked, ReadRepeat, Decode;
    CheckedCodeIsComplete(codes, bits, p);
  }

  lemma SumOfNothing(t: Table)
    requires Proper(t)
    ensures Sum(t.count, 1) == 0
  {
  }

  /** One bit of decoding */
  lemma ScanStep(h: Huffman, lengths: seq<int>, bits: seq<bool>, p: nat, len: nat, code: nat, first: nat)
    requires h.Stores(lengths) && p < |bits| && 1 <= len <= MAXBITS && first <= code
    ensures h.count.Length == MAXBITS + 1 && h.count[len] >= 0
    ensures
      var t := Built(lengths);
      var next, index := code + (if bits[p] then 1 else 0), Sum(t.count, len);
      && Sum(t.count, len + 1) == index + h.count[len]
      && if next < first + h.count[len] then
           && 0 <= index + next - first < h.symbol.Length
           && Scan(t, bits, p, len, code, first) == Symbol(h.symbol[index + next - first], p + 1)
         else Scan(t, bits, p, len, code, first) == Scan(t, bits, p + 1, len + 1, 2 * next, 2 * (first + h.count[len]))
  {
    var t := Built(lengths);
    hide Built, Sorted;
    BuiltIs(lengths);
    SumGrows(t.count, len, len + 1);
    SumGrows(t.count, len + 1, MAXBITS + 1);
    SameSymbols(h, lengths);
  }

  lemma BuiltIs(lengths: seq<int>)
    ensures
      var t := Built(lengths);
      && Proper(t) && (forall len | 0 <= len <= MAXBITS :: t.count[len] == CountOf(lengths, len))
      && t.symbol == Sorted(lengths, MAXBITS)
  {
  }

  lemma SameSymbols(h: Huffman, lengths: seq<int>)
    requires h.Stores(lengths)
    ensures forall i | 0 <= i < |Sorted(lengths, MAXBITS)| :: h.symbol[i] == Sorted(lengths, MAXBITS)[i]
  {
    var n := |Sorted(lengths, MAXBITS)|;
    forall i | 0 <= i < n ensures h.symbol[i] == Sorted(lengths, MAXBITS)[i] {
      assert h.symbol[i] == h.symbol[..n][i];
    }
  }

  lemma NoValue()
    ensures LowValue([]) == 0
  {
  }

  lemma {:induction false} ValueJoins(a: seq<bool>, b: seq<bool>)
    ensures LowValue(a + b) == LowValue(a) + Pow2(|a|) * LowValue(b)
  {
    if a == [] {
      assert a + b == b;
    } else {
      ValueJoins(a[1..], b);
      assert (a + b)[1..] == a[1..] + b;
      Doubled(Pow2(|a| - 1), LowValue(b));
    }
  }

  lemma {:induction false} ValueSplits(a: seq<bool>, k: nat)
    requires k <= |a|
    ensures Low(LowValue(a), k) == LowValue(a[..k]) && Shr(LowValue(a), k) == LowValue(a[k..])
  {
    if k > 0 {
      ValueSplits(a[1..], k - 1);
      assert a[..k][1..] == a[1..][..k - 1] && a[1..][k - 1..] == a[k..];
      assert LowValue(a) / 2 == LowValue(a[1..]);
    } else {
      assert a[k..] == a;
    }
  }

  /** A byte is the number that its bits spell. */
  lemma ByteIsValue(a: seq<byte>, i: nat)
    requires i < |a|
    ensures LowValue(Bits(a, 8 * i, 8 * i + 8)) == a[i]
  {
    HuffmanCode.ByteFits(a[i]);
    BitsOfByte(a, i, 8);
    Shrinks(a[i], 8);
    assert Bits(a, 8 * i + 8 - 8, 8 * i + 8) == Bits(a, 8 * i, 8 * i + 8);
  }

  lemma {:induction false} Shrinks(v: nat, n: nat)
    requires v < Pow2(n)
    ensures Shr(v, n) == 0 && Low(v, n) == v
  {
    if n > 0 { Shrinks(v / 2, n - 1); }
  }

  lemma {:induction false} BitOfShr(v: nat, n: nat)
    ensures Bit(v, n) <==> Shr(v, n) % 2 == 1
  {
    if n > 0 { BitOfShr(v / 2, n - 1); }
  }

  lemma {:induction false} ShrOnce(v: nat, n: nat)
    ensures Shr(v, n + 1) == Shr(v, n) / 2
  {
    if n > 0 { ShrOnce(v / 2, n - 1); }
  }

  lemma BitOfByte(a: seq<byte>, i: nat, j: nat)
    requires i < |a| && j < 8
    ensures BitAt(a, 8 * i + j) == Bit(a[i], j)
  {
    hide Bit;
  }

  /** The last n bits of byte i */
  lemma {:induction false} BitsOfByte(a: seq<byte>, i: nat, n: nat)
    requires i < |a| && n <= 8
    ensures LowValue(Bits(a, 8 * i + 8 - n, 8 * i + 8)) == Low(Shr(a[i], 8 - n), n)
  {
    hide Bits, Shr, Bit, BitAt, Pow2;
    if n > 0 {
      BitsOfByte(a, i, n - 1);
      BitsStep(a, 8 * i + 8 - n, 8 * i + 8);
      BitOfByte(a, i, 8 - n);
      BitOfShr(a[i], 8 - n);
      ShrOnce(a[i], 8 - n);
    }
  }

  /** Fetching a byte adds its bits on top. */
  lemma ByteJoins(a: seq<byte>, p: nat, i: nat)
    requires i < |a| && p <= 8 * i
    ensures
      var all := Bits(a, 0, 8 * |a|);
      LowValue(all[p..8 * i + 8]) == LowValue(all[p..8 * i]) + a[i] * Pow2(8 * i - p)
    ensures LowValue(Bits(a, 0, 8 * |a|)[8 * i..8 * i + 8]) == a[i]
  {
    hide LowValue, Pow2, Bits;
    var all := Bits(a, 0, 8 * |a|);
    ByteIsValue(a, i);
    SliceOfBits(a, 8 * i, 8 * i + 8);
    var low, high := all[p..8 * i], all[8 * i..8 * i + 8];
    assert all[p..8 * i + 8] == low + high;
    ValueJoins(low, high);
    assert Pow2(|low|) * LowValue(high) == a[i] * Pow2(8 * i - p);
  }

  lemma SliceOfBits(a: seq<byte>, p: nat, q: nat)
    requires p <= q <= 8 * |a|
    ensures Bits(a, 0, 8 * |a|)[p..q] == Bits(a, p, q)
  {
    hide BitAt;
  }

  /** A loop that sets a range of lengths */
  method SetLengths(lengths: array<int>, from: nat, to: nat, len: int)
    requires from <= to <= lengths.Length
    modifies lengths
    ensures forall i | from <= i < to :: lengths[i] == len
    ensures forall i | 0 <= i < lengths.Length && !(from <= i < to) :: lengths[i] == old(lengths[i])
  {
    var i := from;
    while i < to
      invariant from <= i <= to && forall j | from <= j < i :: lengths[j] == len
      invariant forall j | 0 <= j < lengths.Length && !(from <= j < i) :: lengths[j] == old(lengths[j])
    {
      lengths[i] := len;
      i := i + 1;
    }
  }

  /** The first lengths in ORDER have been stored, and the others are zero. */
  predicate Ordered(held: seq<int>, codes: seq<int>, index: nat) {
    && |codes| == |ORDER| == 19 <= |held| && index <= 19 && (forall i | 0 <= i < 19 :: 0 <= ORDER[i] < 19)
    && (forall i | 0 <= i < index :: held[ORDER[i]] == codes[ORDER[i]])
    && (forall i | index <= i < 19 :: codes[ORDER[i]] == 0)
  }

  lemma NoneOrdered(held: seq<int>)
    requires 19 <= |held|
    ensures Ordered(held, Repeat(0, 19), 0)
  {
    OrderIsPermutation();
    hide ORDER;
  }

  lemma OrderedPut(held: seq<int>, codes: seq<int>, index: nat, v: int)
    requires Ordered(held, codes, index) && index < 19
    ensures 0 <= ORDER[index] < 19 && Ordered(held[ORDER[index] := v], codes[ORDER[index] := v], index + 1)
  {
    OrderDiffers(index);
    hide ORDER;
  }

  /** The second loop of dynamic: lengths that are not given are zero. */
  method ZeroRest(lengths: array<int>, from: nat, ghost codes: seq<int>)
    requires from <= 19 == |codes| && 19 <= lengths.Length
    requires |ORDER| == 19 && (forall i | 0 <= i < 19 :: ORDER[i] < 19) && Ordered(lengths[..], codes, from)
    modifies lengths
    ensures lengths[0..19] == codes
  {
    hide ORDER, PLACES;
    var index := from;
    while index < 19
      invariant from <= index <= 19
      invariant forall i | 0 <= i < index :: lengths[ORDER[i]] == codes[ORDER[i]]
    {
      lengths[ORDER[index]] := 0;
      index := index + 1;
    }
    forall j | 0 <= j < 19 ensures lengths[j] == codes[j] {
      OrderIsPermutation();
      assert ORDER[PLACES[j]] == j;
    }
  }

  lemma OneBitValue(bits: seq<bool>, p: nat)
    requires p < |bits|
    ensures LowValue(bits[p..p + 1]) == if bits[p] then 1 else 0
  {
    assert bits[p..p + 1][1..] == [];
  }

  lemma BlockKinds(bits: seq<bool>, p: nat, out: seq<byte>, room: Room)
    requires p <= |bits|
    ensures Block(bits, p, 0, out, room) == Stored(bits, p, out, room)
    ensures Block(bits, p, 1, out, room) == CodesOf(bits, p, FixedLengths(), FixedDistances(), out, room)
    ensures forall kind: nat | kind > 2 :: Block(bits, p, kind, out, room) == Fail(-1, p, out)
  {
    hide CodesOf, Stored;
  }

  /** puff: the result code, the size of the output and the amount of input used, unless it ran out
      of input or space. The one kind of stream left out is one with a dynamic block whose code for
      lengths has no codes, and with input for all its lengths: there the program counts -9 as a length. */
  method Puff(dest: array?<byte>, destlen: nat, source: array<byte>, sourcelen: nat)
    returns (err: int, destlen': nat, sourcelen': nat)
    requires sourcelen <= source.Length && (dest != null ==> dest != source && destlen <= dest.Length)
    requires
      var mode := if dest == null then Scanning else Space(destlen);
      !MeetsEmptyCode(Bits(source[..sourcelen], 0, 8 * sourcelen), 0, [], mode)
    modifies dest
    ensures
      var mode := if dest == null then Scanning else Space(destlen);
      var end := Inflate(Bits(old(source[..sourcelen]), 0, 8 * sourcelen), 0, [], mode);
      && err == Code(end)
      && (err > 0 ==> destlen' == destlen && sourcelen' == sourcelen)
      && (end.Ok? || end.Fail? ==>
          && destlen' == |end.out| && sourcelen' == (end.pos + 7) / 8
          && (dest != null ==> destlen' <= dest.Length && dest[..destlen'] == end.out))
  {
    hide Bits, LowValue, Inflate, MeetsEmptyCode;
    ghost var mode := if dest == null then Scanning else Space(destlen);
    UndefinedIsEmptyCode(Bits(source[..sourcelen], 0, 8 * sourcelen), 0, [], mode);
    var s := new State(dest, destlen, source, sourcelen);
    ghost var end := Inflate(s.All(), 0, [], s.Space());
    err := s.Blocks();
    destlen', sourcelen' := destlen, sourcelen;
    if err <= 0 {
      if end.Ok? { s.PosIsInput(); }
      destlen', sourcelen' := s.outcnt, s.incnt;
    }
  }
}
