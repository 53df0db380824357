/**
  What puff of Shared/puff.c makes of a bit stream, as functions of the stream and the position in
  it: stored, fixed and dynamic blocks (section 3.2 of RFC 1951).
 */
module PuffInflate {
  import opened BitStream
  import opened PuffCode

  const MAXLCODES := 286
  const MAXDCODES := 30
  const FIXLCODES := 288

  /** The number that bits spell, the lowest first. */
  function LowValue(bits: seq<bool>): (v: nat)
    ensures v < Pow2(|bits|)
  {
    if bits == [] then 0 else (if bits[0] then 1 else 0) + 2 * LowValue(bits[1..])
  }

  lemma FourBits(bits: seq<bool>)
    requires |bits| == 4
    ensures LowValue(bits) < 16
  {
    assert Pow2(4) == 2 * Pow2(3) == 4 * Pow2(2) == 8 * Pow2(1) == 16;
  }

  datatype Taken = OutOfBits | Taken(v: nat, pos: nat)

  /** bits */
  function Take(bits: seq<bool>, p: nat, need: nat): Taken {
    if p + need > |bits| then OutOfBits else Taken(LowValue(bits[p..p + need]), p + need)
  }

  /** The space for output; a scan writes none. */
  datatype Room = Scanning | Space(n: nat)

  predicate Holds(room: Room, n: nat) {
    room.Space? ==> n <= room.n
  }

  /** How a block or the whole stream ends: out of input, out of space, with an error in the data,
      or well, each with the position and the output so far; Undefined if lengths are counted that
      are -9, which puff does not check. */
  datatype Ending = Starve | Full | Fail(err: int, pos: nat, out: seq<byte>) | Ok(pos: nat, out: seq<byte>) | Undefined

  /** The result code of puff */
  function Code(e: Ending): int {
    match e
    case Starve => 2
    case Full => 1
    case Fail(err, _, _) => err
    case Ok(_, _) => 0
    case Undefined => 0
  }

  function ByteAt(bits: seq<bool>, p: nat): (b: byte)
    requires p + 8 <= |bits|
  {
    assert Pow2(8) == 2 * Pow2(7) == 4 * Pow2(6) == 8 * Pow2(5) == 16 * Pow2(4) == 256;
    LowValue(bits[p..p + 8])
  }

  function BytesAt(bits: seq<bool>, p: nat, n: nat): (r: seq<byte>)
    requires p + 8 * n <= |bits|
    ensures |r| == n
  {
    seq(n, i requires 0 <= i < n => ByteAt(bits, p + 8 * i))
  }

  /** stored: the block starts at the next byte. */
  function Stored(bits: seq<bool>, p: nat, out: seq<byte>, room: Room): (r: Ending)
    ensures (r.Ok? || r.Fail?) ==> |out| <= |r.out| && p <= r.pos <= |bits|
    ensures r.Fail? ==> r.err < 0
  {
    var k := (p + 7) / 8 * 8;
    if k + 32 > |bits| then Starve
    else
      var low, high := ByteAt(bits, k), ByteAt(bits, k + 8);
      var len := low as int + 256 * high;
      if ByteAt(bits, k + 16) as int != 255 - low then Fail(-2, k + 24, out)
      else if ByteAt(bits, k + 24) as int != 255 - high then Fail(-2, k + 32, out)
      else if k + 32 + 8 * len > |bits| then Starve
      else if !Holds(room, |out| + len) then Full
      else Ok(k + 32 + 8 * len, out + BytesAt(bits, k + 32, len))
  }

  const LENS: seq<nat> := [3, 4, 5, 6, 7, 8, 9, 10, 11, 13, 15, 17, 19, 23, 27, 31, 35, 43, 51, 59, 67, 83, 99, 115,
                           131, 163, 195, 227, 258]
  const LEXT: seq<nat> := [0, 0, 0, 0, 0, 0, 0, 0, 1, 1, 1, 1, 2, 2, 2, 2, 3, 3, 3, 3, 4, 4, 4, 4, 5, 5, 5, 5, 0]
  const DISTS: seq<nat> := [1, 2, 3, 4, 5, 7, 9, 13, 17, 25, 33, 49, 65, 97, 129, 193, 257, 385, 513, 769, 1025, 1537,
                            2049, 3073, 4097, 6145, 8193, 12289, 16385, 24577]
  const DEXT: seq<nat> := [0, 0, 0, 0, 1, 1, 2, 2, 3, 3, 4, 4, 5, 5, 6, 6, 7, 7, 8, 8, 9, 9, 10, 10, 11, 11, 12, 12,
                           13, 13]

  lemma TableSizes()
    ensures |LENS| == |LEXT| == 29 && |DISTS| == |DEXT| == 30
    ensures forall i | 0 <= i < 30 :: DISTS[i] > 0
  {
  }

  /** Copies len bytes from dist bytes back, one by one. */
  function Copied(out: seq<byte>, dist: nat, len: nat): (r: seq<byte>)
    requires 0 < dist <= |out|
    ensures |r| == |out| + len && r[..|out|] == out
    decreases len
  {
    if len == 0 then out
    else
      var more := out + [out[|out| - dist]];
      var r := Copied(more, dist, len - 1);
      assert r[..|out|] == r[..|out| + 1][..|out|];
      r
  }

  /** Each copied byte is the one dist before it, also where the copy overlaps itself. */
  lemma {:induction false} CopyRepeats(out: seq<byte>, dist: nat, len: nat)
    requires 0 < dist <= |out|
    ensures forall j | |out| <= j < |out| + len :: Copied(out, dist, len)[j] == Copied(out, dist, len)[j - dist]
    decreases len
  {
    if len > 0 {
      var more := out + [out[|out| - dist]];
      var r := Copied(more, dist, len - 1);
      CopyRepeats(more, dist, len - 1);
      assert r[..|more|][|out|] == more[|out|] && r[..|more|][|out| - dist] == more[|out| - dist];
    }
  }

  /** A table with symbols below n */
  predicate TableFor(t: Table, n: nat) {
    Proper(t) && forall i | 0 <= i < |t.symbol| :: 0 <= t.symbol[i] < n
  }

  lemma {:induction false} DecodedBelow(t: Table, n: nat, bits: seq<bool>, p: nat, len: nat, code: nat, first: nat)
    requires Proper(t) && TableFor(t, n) && p <= |bits| && 1 <= len <= MAXBITS + 1 && first <= code
    ensures Scan(t, bits, p, len, code, first).Symbol? ==> 0 <= Scan(t, bits, p, len, code, first).symbol < n
    decreases MAXBITS + 1 - len
  {
    hide Sum, TableFor;
    if len <= MAXBITS && p < |bits| {
      var next := code + if bits[p] then 1 else 0;
      SumGrows(t.count, len, len + 1);
      SumGrows(t.count, len + 1, MAXBITS + 1);
      if next >= first + t.count[len] {
        DecodedBelow(t, n, bits, p + 1, len + 1, 2 * next, 2 * (first + t.count[len]));
      } else {
        EntryBelow(t, n, len, next - first);
      }
    }
  }

  lemma EntryBelow(t: Table, n: nat, len: nat, k: nat)
    requires TableFor(t, n) && 1 <= len <= MAXBITS && k < t.count[len]
    ensures 0 <= Sum(t.count, len) + k < |t.symbol| && 0 <= t.symbol[Sum(t.count, len) + k] < n
  {
    SumGrows(t.count, len, len + 1);
    SumGrows(t.count, len + 1, MAXBITS + 1);
  }

  /** decode, with a table of n symbols */
  function Next(t: Table, n: nat, bits: seq<bool>, p: nat): (r: Decoded)
    requires TableFor(t, n) && p <= |bits|
    ensures r.Symbol? ==> p < r.pos <= |bits| && 0 <= r.symbol < n
    ensures r.NoCode? ==> p <= r.pos <= |bits|
  {
    DecodedBelow(t, n, bits, p, 1, 0, 0);
    Decode(t, bits, p)
  }

  /** One length and distance pair, once the length symbol has been decoded. */
  datatype Pair = NoPair(end: Ending) | Pair(len: nat, dist: nat, pos: nat)

  function DecodePair(bits: seq<bool>, p: nat, i: nat, distcode: Table, out: seq<byte>): (r: Pair)
    requires p <= |bits| && TableFor(distcode, MAXDCODES)
    ensures r.Pair? ==> p <= r.pos <= |bits| && 0 < r.dist <= |out|
    ensures r.NoPair? ==> !r.end.Ok? && !r.end.Full?
    ensures r.NoPair? && r.end.Fail? ==> r.end.err < 0 && p <= r.end.pos <= |bits| && r.end.out == out
  {
    TableSizes();
    if i >= |LENS| then NoPair(Fail(-9, p, out))
    else
      match Take(bits, p, LEXT[i])
      case OutOfBits => NoPair(Starve)
      case Taken(extra, q) =>
        match Next(distcode, MAXDCODES, bits, q)
        case Starved => NoPair(Starve)
        case NoCode(q') => NoPair(Fail(-9, q', out))
        case Symbol(d, q') =>
          match Take(bits, q', DEXT[d])
          case OutOfBits => NoPair(Starve)
          case Taken(more, end) =>
            if DISTS[d] + more > |out| then NoPair(Fail(-10, end, out))
            else Pair(LENS[i] + extra, DISTS[d] + more, end)
  }

  /** codes */
  function Codes(bits: seq<bool>, p: nat, lencode: Table, distcode: Table, out: seq<byte>, room: Room): (r: Ending)
    requires p <= |bits| && TableFor(lencode, FIXLCODES) && TableFor(distcode, MAXDCODES)
    ensures (r.Ok? || r.Fail?) ==> |out| <= |r.out| && p <= r.pos <= |bits|
    ensures r.Fail? ==> r.err < 0
    decreases |bits| - p
  {
    match Next(lencode, FIXLCODES, bits, p)
    case Starved => Starve
    case NoCode(q) => Fail(-9, q, out)
    case Symbol(s, q) =>
      if s < 256 then
        if !Holds(room, |out| + 1) then Full else Codes(bits, q, lencode, distcode, out + [s], room)
      else if s == 256 then Ok(q, out)
      else
        match DecodePair(bits, q, s - 257, distcode, out)
        case NoPair(end) => end
        case Pair(len, dist, q') =>
          if !Holds(room, |out| + len) then Full
          else Codes(bits, q', lencode, distcode, Copied(out, dist, len), room)
  }

  const ORDER: seq<nat> := [16, 17, 18, 0, 8, 7, 9, 6, 10, 5, 11, 4, 12, 3, 13, 2, 14, 1, 15]

  /** The lengths of a code, or how reading them ends. */
  datatype Lens = NoLens(end: Ending) | Lens(lengths: seq<int>, pos: nat)

  lemma OrderIsBelow()
    ensures |ORDER| == 19 && forall i | 0 <= i < 19 :: ORDER[i] < 19
  {
  }

  /** The lengths of the codes for lengths: three bits each, in a fixed order, the rest zero. */
  function ReadOrdered(bits: seq<bool>, p: nat, i: nat, n: nat, lengths: seq<int>): (r: Lens)
    requires i <= n <= 19 == |lengths| && p <= |bits|
    ensures r.Lens? ==> |r.lengths| == 19 && p <= r.pos <= |bits| && (Lengths(lengths) ==> Lengths(r.lengths))
    ensures r.NoLens? ==> r.end.Starve?
    decreases n - i
  {
    OrderIsBelow();
    assert Pow2(3) == 2 * Pow2(2) == 4 * Pow2(1) == 8;
    if i == n then Lens(lengths, p)
    else
      match Take(bits, p, 3)
      case OutOfBits => NoLens(Starve)
      case Taken(v, q) => ReadOrdered(bits, q, i + 1, n, lengths[ORDER[i] := v])
  }

  function Repeat(len: int, n: nat): (r: seq<int>)
    ensures |r| == n && forall i | 0 <= i < n :: r[i] == len
  {
    seq(n, _ => len)
  }

  /** The instruction to repeat a length */
  function ReadRepeat(bits: seq<bool>, p: nat, symbol: int, lengths: seq<int>, total: nat, out: seq<byte>): (r: Lens)
    requires p <= |bits| && |lengths| < total
    ensures r.Lens? ==> |lengths| <= |r.lengths| <= total && p <= r.pos <= |bits|
    ensures r.Lens? && Lengths(lengths) ==> Lengths(r.lengths)
    ensures r.NoLens? ==> r.end.Starve? || r.end.Fail?
    ensures r.NoLens? && r.end.Fail? ==> r.end.err < 0 && p <= r.end.pos <= |bits| && r.end.out == out
  {
    if symbol == 16 && lengths == [] then NoLens(Fail(-5, p, out))
    else
      var len := if symbol == 16 then lengths[|lengths| - 1] else 0;
      match Take(bits, p, if symbol == 16 then 2 else if symbol == 17 then 3 else 7)
      case OutOfBits => NoLens(Starve)
      case Taken(v, q) =>
        var n := v + if symbol == 18 then 11 else 3;
        if |lengths| + n > total then NoLens(Fail(-6, q, out)) else Lens(lengths + Repeat(len, n), q)
  }

  /** The loop of dynamic that reads the lengths of both codes; the code for lengths is complete. */
  function ReadLengths(bits: seq<bool>, p: nat, t: Table, lengths: seq<int>, total: nat, out: seq<byte>): (r: Lens)
    requires p <= |bits| && TableFor(t, 19) && |lengths| <= total
    ensures r.Lens? ==> |r.lengths| == total && p <= r.pos <= |bits| && (Lengths(lengths) ==> Lengths(r.lengths))
    ensures r.NoLens? ==> r.end.Starve? || r.end.Undefined? || r.end.Fail?
    ensures r.NoLens? && r.end.Fail? ==> r.end.err < 0 && p <= r.end.pos <= |bits| && r.end.out == out
    decreases |bits| - p
  {
    if |lengths| == total then Lens(lengths, p)
    else
      match Next(t, 19, bits, p)
      case Starved => NoLens(Starve)
      case NoCode(_) => NoLens(Undefined)
      case Symbol(s, q) =>
        if s < 16 then ReadLengths(bits, q, t, lengths + [s], total, out)
        else
          match ReadRepeat(bits, q, s, lengths, total, out)
          case NoLens(end) => NoLens(end)
          case Lens(more, q') => ReadLengths(bits, q', t, more, total, out)
  }

  /** The bytes that decode fetches to fail for a code without codes, after q bits: with those left in the
      buffer they make up fifteen bits. The bits in the buffer stay there. */
  function FailingFetch(q: nat): nat {
    if q % 8 == 1 then 1 else 2
  }

  /** The bytes that have been fetched once decode has failed n times after q bits */
  function FetchedFor(q: nat, n: nat): nat {
    (q + 7) / 8 + FailingFetch(q) * n
  }

  /** After q bits there is input left for decode to fail that often. */
  predicate FailsFor(bits: seq<bool>, q: nat, total: nat) {
    FetchedFor(q, total) <= |bits| / 8
  }

  /** A code that may be used for data: complete, or with just one symbol. */
  predicate Usable(lengths: seq<int>) {
    Checked(lengths) == 0 || (Checked(lengths) > 0 && |lengths| - CountOf(lengths, 0) == 1)
  }

  /** The lengths of both codes in one list, the first nlen of them for literals and lengths */
  datatype BothLens = NoBoth(end: Ending) | Both(nlen: nat, lengths: seq<int>, pos: nat)

  /** The code descriptions at the start of a dynamic block; with a code for lengths that has no codes,
      every length is -9, or the input ends. */
  function ReadBoth(bits: seq<bool>, p: nat, out: seq<byte>): (r: BothLens)
    requires p <= |bits|
    ensures r.Both? ==>
      && r.nlen <= MAXLCODES && r.nlen <= |r.lengths| <= r.nlen + MAXDCODES
      && p <= r.pos <= |bits| && Lengths(r.lengths)
    ensures r.NoBoth? ==> r.end.Starve? || r.end.Undefined? || r.end.Fail?
    ensures r.NoBoth? && r.end.Fail? ==> r.end.err < 0 && p <= r.end.pos <= |bits| && r.end.out == out
  {
    if p + 14 > |bits| then NoBoth(Starve)
    else
      var nlen, ndist := LowValue(bits[p..p + 5]) + 257, LowValue(bits[p + 5..p + 10]) + 1;
      var ncode := LowValue(bits[p + 10..p + 14]) + 4;
      FourBits(bits[p + 10..p + 14]);
      if nlen > MAXLCODES || ndist > MAXDCODES then NoBoth(Fail(-3, p + 14, out))
      else
        match ReadOrdered(bits, p + 14, 0, ncode, Repeat(0, 19))
        case NoLens(end) => NoBoth(end)
        case Lens(codes, q) =>
          if Checked(codes) != 0 then NoBoth(Fail(-4, q, out))
          else if CountOf(codes, 0) == 19 then NoBoth(if FailsFor(bits, q, nlen + ndist) then Undefined else Starve)
          else
            BuiltFor(codes);
            match ReadLengths(bits, q, Built(codes), [], nlen + ndist, out)
            case NoLens(end) => NoBoth(end)
            case Lens(both, q') => Both(nlen, both, q')
  }

  datatype Tables = NoTables(end: Ending) | Tables(lengths: seq<int>, distances: seq<int>, pos: nat)

  /** The lengths of the two codes, which must be usable */
  function ReadTables(bits: seq<bool>, p: nat, out: seq<byte>): (r: Tables)
    requires p <= |bits|
    ensures r.Tables? ==> |r.lengths| <= MAXLCODES && |r.distances| <= MAXDCODES && p <= r.pos <= |bits|
    ensures r.NoTables? ==> r.end.Starve? || r.end.Undefined? || r.end.Fail?
    ensures r.NoTables? && r.end.Fail? ==> r.end.err < 0 && p <= r.end.pos <= |bits| && r.end.out == out
  {
    match ReadBoth(bits, p, out)
    case NoBoth(end) => NoTables(end)
    case Both(nlen, both, q) =>
      if !Usable(both[..nlen]) then NoTables(Fail(-7, q, out))
      else if !Usable(both[nlen..]) then NoTables(Fail(-8, q, out))
      else Tables(both[..nlen], both[nlen..], q)
  }

  lemma {:induction false} SortedBelow(lengths: seq<int>, len: nat)
    ensures forall i | 0 <= i < |Sorted(lengths, len)| :: 0 <= Sorted(lengths, len)[i] < |lengths|
  {
    if len > 0 {
      SortedBelow(lengths, len - 1);
      forall i | 0 <= i < CountOf(lengths, len) ensures 0 <= OfLength(lengths, len)[i] < |lengths| {
        RankOf(lengths, len, i);
      }
    }
  }

  lemma BuiltFor(lengths: seq<int>)
    ensures forall n | n >= |lengths| :: TableFor(Built(lengths), n)
  {
    SortedBelow(lengths, MAXBITS);
  }

  /** The lengths of the fixed codes */
  function FixedLengths(): (r: seq<int>)
    ensures |r| == FIXLCODES
  {
    Repeat(8, 144) + Repeat(9, 112) + Repeat(7, 24) + Repeat(8, 8)
  }

  function FixedDistances(): (r: seq<int>)
    ensures |r| == MAXDCODES
  {
    Repeat(5, MAXDCODES)
  }

  /** codes, with the tables built from these lengths */
  function CodesOf(bits: seq<bool>, p: nat, lengths: seq<int>, distances: seq<int>, out: seq<byte>,
          room: Room): (r: Ending)
    requires p <= |bits| && |lengths| <= FIXLCODES && |distances| <= MAXDCODES
    ensures (r.Ok? || r.Fail?) ==> |out| <= |r.out| && p <= r.pos <= |bits|
    ensures r.Fail? ==> r.err < 0
  {
    BuiltFor(lengths);
    BuiltFor(distances);
    Codes(bits, p, Built(lengths), Built(distances), out, room)
  }

  /** A block, by its type. */
  function Block(bits: seq<bool>, p: nat, kind: nat, out: seq<byte>, room: Room): (r: Ending)
    requires p <= |bits|
    ensures (r.Ok? || r.Fail?) ==> |out| <= |r.out| && p <= r.pos <= |bits|
    ensures r.Fail? ==> r.err < 0
  {
    if kind == 0 then Stored(bits, p, out, room)
    else if kind == 1 then CodesOf(bits, p, FixedLengths(), FixedDistances(), out, room)
    else if kind == 2 then
      match ReadTables(bits, p, out)
      case NoTables(end) => end
      case Tables(lengths, distances, q) => CodesOf(bits, q, lengths, distances, out, room)
    else Fail(-1, p, out)
  }

  /** puff, from a position between two blocks. */
  function Inflate(bits: seq<bool>, p: nat, out: seq<byte>, room: Room): (r: Ending)
    requires p <= |bits|
    ensures (r.Ok? || r.Fail?) ==> |out| <= |r.out| && p <= r.pos <= |bits|
    ensures r.Fail? ==> r.err < 0
    decreases |bits| - p
  {
    if p + 3 > |bits| then Starve
    else
      match Block(bits, p + 3, LowValue(bits[p + 1..p + 3]), out, room)
      case Ok(q, out') => if bits[p] then Ok(q, out') else Inflate(bits, q, out', room)
      case end => end
  }
}
