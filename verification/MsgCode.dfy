/**
  What MSG_WriteBits writes and MSG_ReadBits reads (Shared/msg.c), as functions on bit sequences:
  the odd low bits of a value as they are, the rest byte by byte in the code of a Huffman tree that
  no longer changes.
 */
module MsgCode {
  import opened BitStream
  import opened Words
  import opened HuffmanTree
  import opened HuffmanCode

  /** A tree in which every byte value has a leaf. */
  ghost predicate Complete(s: Fgk) {
    Reachable(s) && forall c: Symbol :: s.loc[c] != NIL
  }

  function LowBits(v: nat, n: nat): (r: seq<bool>)
    ensures |r| == n
  {
    if n == 0 then [] else [v % 2 == 1] + LowBits(v / 2, n - 1)
  }

  ghost function Bytes(s: Fgk, v: nat, n: nat): seq<bool>
    requires Complete(s)
  {
    if n == 0 then [] else Transmit(s, v % 256) + Bytes(s, v / 256, n - 1)
  }

  function Shr(v: int, n: nat): (r: int)
    ensures v >= 0 ==> r >= 0
    decreases n
  {
    if n == 0 then v else Shr(v / 2, n - 1)
  }

  /** The number in the n low bits of an int in two's complement */
  function Low(v: int, n: nat): (u: nat)
    ensures u < Pow2(n)
    decreases n
  {
    if n == 0 then 0 else v % 2 + 2 * Low(v / 2, n - 1)
  }

  /** The bits for an n-bit value */
  ghost function Field(s: Fgk, v: nat, n: nat): seq<bool>
    requires Complete(s)
  {
    LowBits(v, n % 8) + Bytes(s, Shr(v, n % 8), n / 8)
  }

  /** The odd low bits stand in front as they are, the lowest first. */
  lemma {:induction false} OddBitsAre(v: nat, n: nat, k: nat)
    requires k < n
    ensures LowBits(v, n)[k] <==> Bit(v, k)
  {
    if k > 0 {
      OddBitsAre(v / 2, n - 1, k - 1);
    }
  }

  /** The code of the next byte follows, lower bytes first. */
  lemma FieldGrows(s: Fgk, v: nat, n: nat)
    requires Complete(s)
    ensures Field(s, v, n + 8) == Field(s, v, n) + Transmit(s, Shr(v, n) % 256)
  {
    hide Complete, Transmit;
    assert (n + 8) % 8 == n % 8 && (n + 8) / 8 == n / 8 + 1;
    BytesGrow(s, Shr(v, n % 8), n / 8);
    ShrTwice(v, n % 8, 8 * (n / 8));
  }

  lemma {:induction false} BytesGrow(s: Fgk, v: nat, n: nat)
    requires Complete(s)
    ensures Bytes(s, v, n + 1) == Bytes(s, v, n) + Transmit(s, Shr(v, 8 * n) % 256)
  {
    hide Complete, Transmit;
    if n > 0 {
      hide Shr;
      BytesGrow(s, v / 256, n - 1);
      ShrTwice(v, 8, 8 * (n - 1));
      ShrOfByte(v);
      CompleteIsShaped(s);
      JoinIsAssociative(Transmit(s, v % 256), Bytes(s, v / 256, n - 1), Transmit(s, Shr(v, 8 * n) % 256));
    }
  }

  lemma JoinIsAssociative(a: seq<bool>, b: seq<bool>, c: seq<bool>)
    ensures a + (b + c) == a + b + c
  {
  }

  lemma ShrOfByte(v: nat)
    ensures Shr(v, 8) == v / 256
  {
    assert Shr(v, 8) == Shr(v / 16, 4);
  }

  lemma {:induction false} ShrTwice(v: int, m: nat, n: nat)
    ensures Shr(Shr(v, m), n) == Shr(v, m + n)
    decreases m
  {
    if m > 0 {
      ShrTwice(v / 2, m - 1, n);
    }
  }

  /** What a read gives: nothing if the stream ends too soon, an error, or a value and the rest. */
  datatype Read<T> = Short | Dropped | Value(v: T, rest: seq<bool>) {
    predicate IsFailure() {
      !Value?
    }

    function PropagateFailure<U>(): Read<U>
      requires IsFailure()
    {
      if Short? then Short else Dropped
    }

    function Extract(): (T, seq<bool>)
      requires !IsFailure()
    {
      (v, rest)
    }
  }

  function ReadLow(bits: seq<bool>, n: nat): (r: Read<nat>)
    ensures !r.Dropped?
  {
    if n == 0 then Value(0, bits)
    else if bits == [] then Short
    else
      var (v, rest) :- ReadLow(bits[1..], n - 1);
      Value((if bits[0] then 1 else 0) + 2 * v, rest)
  }

  /** Huff_offsetReceive, on a stream that leads to the leaf of a byte. */
  function ReadByte(t: Tree, bits: seq<bool>): (r: Read<nat>)
    requires t.Shaped()
    ensures !r.Dropped?
  {
    match Walk(t, t.root, bits)
    case Stuck => Short
    case At(x, rest) => if t.Node(x) && 0 <= t.symbol[x] < 256 then Value(t.symbol[x], rest) else Short
  }

  function ReadBytes(t: Tree, bits: seq<bool>, n: nat): (r: Read<nat>)
    requires t.Shaped()
    ensures !r.Dropped?
    decreases n
  {
    if n == 0 then Value(0, bits)
    else
      var (v, rest) :- ReadByte(t, bits);
      var (more, rest') :- ReadBytes(t, rest, n - 1);
      Value(v + 256 * more, rest')
  }

  function ReadField(t: Tree, bits: seq<bool>, n: nat): (r: Read<nat>)
    requires t.Shaped()
    ensures !r.Dropped?
  {
    var (low, rest) :- ReadLow(bits, n % 8);
    var (high, rest') :- ReadBytes(t, rest, n / 8);
    Value(low + Pow2(n % 8) * high, rest')
  }

  lemma {:induction false} LowReadsBack(v: nat, n: nat, rest: seq<bool>)
    ensures ReadLow(LowBits(v, n) + rest, n) == Value(Low(v, n), rest)
  {
    if n == 0 {
      assert LowBits(v, n) + rest == rest;
    } else {
      assert (LowBits(v, n) + rest)[1..] == LowBits(v / 2, n - 1) + rest;
      LowReadsBack(v / 2, n - 1, rest);
    }
  }

  lemma Doubled(a: int, b: int)
    ensures 2 * (a * b) == (2 * a) * b
  {
  }

  lemma {:induction false} LowSplits(v: int, k: nat, n: nat)
    ensures Low(v, k + n) == Low(v, k) + Pow2(k) * Low(Shr(v, k), n)
    decreases k
  {
    if k > 0 {
      LowSplits(v / 2, k - 1, n);
      Doubled(Pow2(k - 1), Low(Shr(v, k), n));
    }
  }

  lemma {:induction false} LowIsSame(v: nat, n: nat)
    requires v < Pow2(n)
    ensures Low(v, n) == v
  {
    if n > 0 { LowIsSame(v / 2, n - 1); }
  }

  lemma TwoOfLow(v: int, k: nat)
    ensures Low(v, k + 2) == v % 4 + 4 * Low(v / 4, k)
  {
    assert Low(v, k + 2) == v % 2 + 2 * Low(v / 2, k + 1);
    assert v / 2 / 2 == v / 4;
  }

  lemma FourOfLow(v: int, k: nat)
    ensures Low(v, k + 4) == v % 16 + 16 * Low(v / 16, k)
  {
    TwoOfLow(v, k + 2);
    TwoOfLow(v / 4, k);
  }

  lemma ByteOfLow(v: int, k: nat)
    ensures Low(v, k + 8) == v % 256 + 256 * Low(v / 256, k)
  {
    hide Low;
    FourOfLow(v, k + 4);
    FourOfLow(v / 16, k);
  }

  lemma CompleteIsShaped(s: Fgk)
    requires Complete(s)
    ensures s.tree.Shaped() && Valid(s) && |s.loc| == NYT + 1 && Reachable(s)
  {
  }

  lemma CodeReadsBack(s: Fgk, c: Symbol, rest: seq<bool>)
    requires Complete(s)
    ensures Valid(s) && s.tree.Shaped()
    ensures ReadByte(s.tree, Transmit(s, c) + rest) == Value(c, rest)
  {
    CompleteIsShaped(s);
    LeafOf(s, c);
    WalkCode(s, s.loc[c], rest);
  }

  lemma {:induction false} BytesReadBack(s: Fgk, v: nat, n: nat, rest: seq<bool>)
    requires Complete(s)
    ensures s.tree.Shaped() && ReadBytes(s.tree, Bytes(s, v, n) + rest, n) == Value(Low(v, 8 * n), rest)
  {
    hide Complete, Transmit, ReadByte;
    CompleteIsShaped(s);
    if n == 0 {
      assert Bytes(s, v, n) + rest == rest;
    } else {
      assert Bytes(s, v, n) + rest == Transmit(s, v % 256) + (Bytes(s, v / 256, n - 1) + rest);
      CodeReadsBack(s, v % 256, Bytes(s, v / 256, n - 1) + rest);
      BytesReadBack(s, v / 256, n - 1, rest);
      ByteOfLow(v, 8 * (n - 1));
    }
  }

  /** Reading an n-bit field gives back the value that was written and ends right behind it. */
  lemma FieldReadsBack(s: Fgk, v: nat, n: nat, rest: seq<bool>)
    requires Complete(s) && v < Pow2(n)
    ensures s.tree.Shaped() && ReadField(s.tree, Field(s, v, n) + rest, n) == Value(v, rest)
  {
    hide Complete, Bytes, ReadBytes, LowBits, ReadLow, Low, Pow2;
    CompleteIsShaped(s);
    var k := n % 8;
    var high := Bytes(s, Shr(v, k), n / 8);
    assert Field(s, v, n) + rest == LowBits(v, k) + (high + rest);
    LowReadsBack(v, k, high + rest);
    BytesReadBack(s, Shr(v, k), n / 8, rest);
    LowSplits(v, k, 8 * (n / 8));
    LowIsSame(v, n);
  }

  function Abs(x: int): nat {
    if x < 0 then -x else x
  }

  /** The bits of a width that fill whole bytes */
  function Whole(bits: int): (w: nat)
    ensures w <= Abs(bits)
  {
    Abs(bits) - Abs(bits) % 8
  }

  predicate Width(bits: int) {
    bits != 0 && -31 <= bits <= 32
  }

  /** The low bits of a value as MSG_WriteBits sends it: value & (0xffffffff >> (32 - bits)) */
  function Masked(value: int, bits: int): (u: nat)
    ensures u < Pow2(Abs(bits))
  {
    Low(value, Abs(bits))
  }

  /** The int that MSG_ReadBits makes of the bits it has read. A signed value takes its sign from
      the highest bit of the whole bytes among them. */
  function FromBits(u: nat, bits: int): int
    requires Width(bits)
  {
    if bits == 32 then if u < 0x8000_0000 then u else u - 0x1_0000_0000
    else if bits > 0 then u
    else
      var whole := Whole(bits);
      if whole > 0 && Bit(u, whole - 1) then Low(u, whole) - Pow2(whole) else u
  }

  /** What is read for a value that was written with the same width. */
  function ReadsAs(value: int, bits: int): int
    requires Width(bits)
  {
    FromBits(Masked(value, bits), bits)
  }

  /** The values that survive a trip with the given width: with all 32 bits every int does; an
      unsigned width keeps what fits; a signed width of whole bytes keeps its two's complement
      range; with odd bits left over, bit `whole - 1` must agree with the sign. */
  predicate Fits(value: int, bits: int)
    requires Width(bits)
  {
    if bits == 32 then Int32(value)
    else if bits > 0 then 0 <= value < Pow2(bits)
    else
      var whole := Whole(bits);
      if value < 0 then whole > 0 && value + Pow2(whole - 1) >= 0
      else value < Pow2(Abs(bits)) && (whole > 0 ==> !Bit(value, whole - 1))
  }

  lemma {:induction false} BitOfLow(v: nat, n: nat, k: nat)
    requires k < n
    ensures Bit(Low(v, n), k) <==> Bit(v, k)
  {
    if k > 0 { BitOfLow(v / 2, n - 1, k - 1); }
  }

  lemma {:induction false} LowOfNegative(v: int, n: nat)
    requires v < 0 <= v + Pow2(n)
    ensures Low(v, n) == v + Pow2(n)
    decreases n
  {
    if n > 0 { LowOfNegative(v / 2, n - 1); }
  }

  /** In two's complement a negative value has its high bits set. */
  lemma {:induction false} NegativeBit(v: int, n: nat, k: nat)
    requires v < 0 <= v + Pow2(k) && k < n
    ensures Bit(Low(v, n), k)
    decreases n
  {
    if k > 0 {
      NegativeBit(v / 2, n - 1, k - 1);
      assert Low(v, n) / 2 == Low(v / 2, n - 1);
    }
  }

  lemma {:induction false} LowTwice(v: int, m: nat, n: nat)
    requires m <= n
    ensures Low(Low(v, n), m) == Low(v, m)
    decreases n
  {
    if m > 0 {
      LowTwice(v / 2, m - 1, n - 1);
      assert Low(v, n) / 2 == Low(v / 2, n - 1) && Low(v, n) % 2 == v % 2;
    }
  }

  /** A number below 2^(n+1) has its bit n set exactly if it is at least 2^n. */
  lemma {:induction false} TopBit(u: nat, n: nat)
    requires u < Pow2(n + 1)
    ensures Bit(u, n) <==> u >= Pow2(n)
  {
    if n > 0 { TopBit(u / 2, n - 1); }
  }

  /** MSG_ReadBits returns the value given to MSG_WriteBits exactly if the value fits the width. */
  lemma ReadsAsWritten(value: int, bits: int)
    requires Width(bits) && Int32(value)
    ensures ReadsAs(value, bits) == value <==> Fits(value, bits)
  {
    var n, whole := Abs(bits), Whole(bits);
    if bits == 32 {
      WordReadsBack(value);
    } else if bits > 0 {
      if 0 <= value < Pow2(n) { LowIsSame(value, n); }
    } else {
      SignedReadsBack(value, n, whole);
    }
  }

  lemma PowersUsed()
    ensures Pow2(8) == 0x100 && Pow2(16) == 0x10000 && Pow2(31) == 0x8000_0000 && Pow2(32) == 0x1_0000_0000
  {
    assert Pow2(8) == 2 * Pow2(7) == 4 * Pow2(6) == 8 * Pow2(5) == 16 * Pow2(4) == 256;
    Pow2Adds(8, 8);
    Pow2Adds(16, 15);
    assert Pow2(16) == 2 * Pow2(15);
    assert Pow2(32) == 2 * Pow2(31);
  }

  lemma {:induction false} Pow2Adds(a: nat, b: nat)
    ensures Pow2(a + b) == Pow2(a) * Pow2(b)
  {
    if a > 0 {
      Pow2Adds(a - 1, b);
      Doubled(Pow2(a - 1), Pow2(b));
    }
  }

  lemma WordReadsBack(value: int)
    requires Int32(value)
    ensures ReadsAs(value, 32) == value
  {
    PowersUsed();
    if value >= 0 { LowIsSame(value, 32); } else { LowOfNegative(value, 32); }
  }

  lemma SignedReadsBack(value: int, n: int, whole: nat)
    requires 0 < n <= 31 && whole <= n && whole == Whole(-n) && Int32(value)
    ensures ReadsAs(value, -n) == value <==> Fits(value, -n)
  {
    var u := Low(value, n);
    if value >= 0 {
      if value < Pow2(n) { LowIsSame(value, n); }
    } else if whole > 0 {
      if value + Pow2(whole - 1) >= 0 {
        NegativeBit(value, n, whole - 1);
        LowTwice(value, whole, n);
        LowOfNegative(value, whole);
      } else if Bit(u, whole - 1) {
        var low := Low(u, whole);
        BitOfLow(u, whole, whole - 1);
        TopBit(low, whole - 1);
      }
    }
  }

  /** A call of MSG_WriteBits */
  datatype Item = Item(value: int, bits: int)

  predicate Widths(items: seq<Item>) {
    forall i | 0 <= i < |items| :: Width(items[i].bits)
  }

  /** The bits that a sequence of MSG_WriteBits calls writes. */
  ghost function Stream(s: Fgk, items: seq<Item>): seq<bool>
    requires Complete(s)
  {
    if items == [] then []
    else Field(s, Masked(items[0].value, items[0].bits), Abs(items[0].bits)) + Stream(s, items[1..])
  }

  /** MSG_ReadBits */
  function ReadInt(t: Tree, bits: seq<bool>, width: int): (r: Read<int>)
    requires t.Shaped() && Width(width)
    ensures !r.Dropped?
  {
    var (u, rest) :- ReadField(t, bits, Abs(width));
    Value(FromBits(u, width), rest)
  }

  /** Calls of MSG_ReadBits with the widths of the items. */
  function ReadInts(t: Tree, bits: seq<bool>, items: seq<Item>): (r: Read<seq<int>>)
    requires t.Shaped() && Widths(items)
    ensures !r.Dropped?
    decreases |items|
  {
    if items == [] then Value([], bits)
    else
      var (v, rest) :- ReadInt(t, bits, items[0].bits);
      var (vs, rest') :- ReadInts(t, rest, items[1..]);
      Value([v] + vs, rest')
  }

  lemma IntReadsBack(s: Fgk, value: int, width: int, rest: seq<bool>)
    requires Complete(s) && Width(width)
    ensures s.tree.Shaped()
    ensures ReadInt(s.tree, Field(s, Masked(value, width), Abs(width)) + rest, width)
      == Value(ReadsAs(value, width), rest)
  {
    hide Complete, Field, ReadField;
    FieldReadsBack(s, Masked(value, width), Abs(width), rest);
  }

  /** The values that are read for the items. */
  function Values(items: seq<Item>): seq<int>
    requires Widths(items)
  {
    if items == [] then [] else [ReadsAs(items[0].value, items[0].bits)] + Values(items[1..])
  }

  /** Any sequence of values is read back value for value, and nothing behind it is touched. */
  lemma {:induction false} StreamReadsBack(s: Fgk, items: seq<Item>, rest: seq<bool>)
    requires Complete(s) && Widths(items)
    ensures s.tree.Shaped()
    ensures ReadInts(s.tree, Stream(s, items) + rest, items) == Value(Values(items), rest)
  {
    hide Complete, Field, ReadInt, ReadsAs, Masked;
    CompleteIsShaped(s);
    if items == [] {
      assert Stream(s, items) + rest == rest;
    } else {
      var more := items[1..];
      assert Stream(s, items) + rest
        == Field(s, Masked(items[0].value, items[0].bits), Abs(items[0].bits)) + (Stream(s, more) + rest);
      IntReadsBack(s, items[0].value, items[0].bits, Stream(s, more) + rest);
      StreamReadsBack(s, more, rest);
      assert Widths(more) && Width(items[0].bits);
    }
  }

  lemma {:induction false} StreamJoins(s: Fgk, a: seq<Item>, b: seq<Item>)
    requires Complete(s)
    ensures Stream(s, a + b) == Stream(s, a) + Stream(s, b)
  {
    hide Complete, Field;
    if a == [] {
      assert a + b == b;
    } else {
      assert (a + b)[1..] == a[1..] + b;
      StreamJoins(s, a[1..], b);
    }
  }
}
