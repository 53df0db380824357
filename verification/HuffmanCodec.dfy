/**
  Huff_Compress and Huff_Decompress of Shared/huffman.c: a message is coded with a tree that both
  sides grow from the symbols seen so far.
 */
module HuffmanCodec {
  import opened BitStream
  import opened HuffmanTree
  import opened HuffmanList
  import opened HuffmanCoder
  import opened HuffmanCode

  const SEQ_SIZE := 65536

  /** The fields of msg_t that compression uses. */
  class MsgData {
    var data: array<byte>
    var maxsize: int
    var cursize: int

    constructor (bytes: array<byte>, size: nat)
      requires size <= bytes.Length
      ensures data == bytes && maxsize == bytes.Length && cursize == size
    {
      data, maxsize, cursize := bytes, bytes.Length, size;
    }
  }

  /** The bits of a turn from node to its child; none if there is no child. */
  ghost function Turn(t: Tree, node: int, child: int): seq<bool>
    requires t.Shaped() && t.Node(node)
  {
    if child == NIL then [] else [t.right[node] == child]
  }

  /** send: the prefix code of node, and the turn to its child, if one is given. */
  method Send(h: Huff, node: int, child: int, cur: Cursor, fout: array<byte>)
    requires HuffmanTree.Valid(h.Abs()) && h.Abs().tree.Node(node)
    requires child == NIL || child >= 0
    requires Clean(fout[..], cur.bloc)
    requires cur.bloc + |Code(h.Abs(), node) + Turn(h.Abs().tree, node, child)| <= 8 * fout.Length
    modifies cur, fout
    ensures var bits := Code(h.Abs(), node) + Turn(h.Abs().tree, node, child);
      cur.bloc == old(cur.bloc) + |bits| && Appended(old(fout[..]), old(cur.bloc), bits, fout[..])
    decreases h.Abs().tree.size - h.Abs().list.rank[node]
  {
    ghost var s := h.Abs();
    hide Invariant, Appended;
    ghost var before, start := fout[..], cur.bloc;
    RootHasNoParent(s, node);
    if h.parent[node] != NIL {
      Climb(s, node);
      Send(h, h.parent[node], node, cur, fout);
    } else {
      NothingAppended(before, start);
    }
    assert Code(s, node) + [] == Code(s, node);
    if child != NIL {
      SendTurn(h.right[node] == child, cur, fout, before, start, Code(s, node));
    }
  }

  /** The last step of send. */
  method SendTurn(turn: bool, cur: Cursor, fout: array<byte>, ghost before: seq<byte>, ghost start: nat,
          ghost code: seq<bool>)
    requires Appended(before, start, code, fout[..])
    requires cur.bloc == start + |code| < 8 * fout.Length
    modifies cur, fout
    ensures cur.bloc == start + |code| + 1 && Appended(before, start, code + [turn], fout[..])
  {
    hide Appended;
    ghost var middle := fout[..];
    AppendedFits(before, start, code, middle);
    if turn {
      cur.AddBit(true, fout);
    } else {
      cur.AddBit(false, fout);
    }
    AppendedTwice(before, start, code, middle, [turn], fout[..]);
  }

  lemma RootHasNoParent(s: Fgk, x: int)
    requires HuffmanTree.Valid(s) && s.tree.Node(x)
    ensures s.tree.Shaped() && (s.tree.parent[x] == NIL <==> x == s.tree.root)
  {
    hide Labelled, Sorted, Summed, Laid;
  }

  lemma NothingAppended(a: seq<byte>, p: nat)
    requires p <= 8 * |a| && Clean(a, p)
    ensures Appended(a, p, [], a)
  {
  }

  /** The bits Huff_transmit writes for a byte value or for NYT. */
  ghost function Sent(s: Fgk, ch: int): seq<bool>
    requires HuffmanTree.Valid(s) && |s.loc| == NYT + 1 && 0 <= ch <= NYT
  {
    NytHasLeaf(s);
    if ch == NYT then Code(s, s.loc[NYT]) else Transmit(s, ch)
  }

  /** Huff_transmit */
  method TransmitSymbol(h: Huff, ch: int, cur: Cursor, fout: array<byte>)
    requires HuffmanTree.Valid(h.Abs()) && |h.loc| == NYT + 1 && 0 <= ch <= NYT
    requires Clean(fout[..], cur.bloc) && cur.bloc + |Sent(h.Abs(), ch)| <= 8 * fout.Length
    modifies cur, fout
    ensures var bits := Sent(h.Abs(), ch);
      cur.bloc == old(cur.bloc) + |bits| && Appended(old(fout[..]), old(cur.bloc), bits, fout[..])
    decreases NYT - ch
  {
    ghost var s := h.Abs();
    hide Invariant, Appended, Code;
    NytHasLeaf(s);
    if h.loc[ch] == NIL {
      ghost var before, start, code := fout[..], cur.bloc, Code(s, s.loc[NYT]);
      TransmitSymbol(h, NYT, cur, fout);
      TransmitByte(ch, cur, fout, before, start, code);
    } else {
      SentCode(s, ch);
      Send(h, h.loc[ch], NIL, cur, fout);
    }
  }

  lemma SentCode(s: Fgk, ch: int)
    requires HuffmanTree.Valid(s) && |s.loc| == NYT + 1 && 0 <= ch <= NYT && s.loc[ch] != NIL
    ensures s.tree.Shaped() && s.tree.Node(s.loc[ch])
    ensures Sent(s, ch) == Code(s, s.loc[ch]) + Turn(s.tree, s.loc[ch], NIL)
  {
    hide Linked, Ranked, Sorted, Summed, Laid, Code;
    assert Code(s, s.loc[ch]) + [] == Code(s, s.loc[ch]);
  }

  /** The loop of Huff_transmit that sends the bits of a byte, the highest first. */
  method TransmitByte(ch: Symbol, cur: Cursor, fout: array<byte>,
                      ghost before: seq<byte>, ghost start: nat, ghost code: seq<bool>)
    requires cur.bloc == start + |code| && Appended(before, start, code, fout[..])
    requires cur.bloc + 8 <= 8 * fout.Length
    modifies cur, fout
    ensures cur.bloc == start + |code + ByteBits(ch)|
    ensures Appended(before, start, code + ByteBits(ch), fout[..])
  {
    hide Appended;
    var i := 7;
    assert code + ByteBits(ch)[..0] == code;
    while i >= 0
      invariant -1 <= i <= 7
      invariant cur.bloc == start + |code| + 7 - i
      invariant Appended(before, start, code + ByteBits(ch)[..7 - i], fout[..])
    {
      ghost var middle := fout[..];
      HighFirstBit(ch, 8, 7 - i);
      AppendedFits(before, start, code + ByteBits(ch)[..7 - i], middle);
      cur.AddBit(Bit(ch, i), fout);
      AppendedTwice(before, start, code + ByteBits(ch)[..7 - i], middle, [Bit(ch, i)], fout[..]);
      assert code + ByteBits(ch)[..7 - i] + [Bit(ch, i)] == code + ByteBits(ch)[..7 - i + 1];
      i := i - 1;
    }
    assert ByteBits(ch)[..8] == ByteBits(ch);
  }

  /** Huff_Receive, on a stream that leads to a leaf. */
  method ReceiveSymbol(h: Huff, cur: Cursor, fin: array<byte>, base: nat, ghost end: nat) returns (ch: int)
    requires h.Abs().tree.Shaped() && base <= fin.Length && cur.bloc <= end <= 8 * (fin.Length - base)
    requires Walk(h.Abs().tree, h.tree, Bits(fin[base..], cur.bloc, end)).At?
    modifies cur
    ensures var w := Walk(h.Abs().tree, h.tree, old(Bits(fin[base..], cur.bloc, end)));
      && h.Abs().tree.Node(w.node) && ch == h.symbol[w.node]
      && old(cur.bloc) <= cur.bloc <= end && w.rest == Bits(fin[base..], cur.bloc, end)
  {
    var node := h.tree;
    ghost var w := Walk(h.Abs().tree, node, Bits(fin[base..], cur.bloc, end));
    WalkStays(h.Abs().tree, node, Bits(fin[base..], cur.bloc, end));
    while node != NIL && h.symbol[node] == INTERNAL
      invariant old(cur.bloc) <= cur.bloc <= end && h.Abs().tree.Node(node)
      invariant Walk(h.Abs().tree, node, Bits(fin[base..], cur.bloc, end)) == w
      decreases end - cur.bloc
    {
      BitsStep(fin[base..], cur.bloc, end);
      WalkStays(h.Abs().tree, node, Bits(fin[base..], cur.bloc, end));
      var b := cur.GetBit(fin, base);
      if b {
        node := h.right[node];
      } else {
        node := h.left[node];
      }
      WalkStays(h.Abs().tree, node, Bits(fin[base..], cur.bloc, end));
    }
    ch := h.symbol[node];
  }

  lemma WalkStays(t: Tree, x: int, bits: seq<bool>)
    requires t.Shaped() && Walk(t, x, bits).At?
    ensures t.Node(x) && (t.Internal(x) ==> bits != [])
  {
  }

  /** The number of bytes Huff_Compress makes of m. */
  ghost function CompressedSize(m: seq<Symbol>): nat {
    (16 + |Encode(Fresh(), m)| + 8) / 8
  }

  /** buffer holds the compressed form of m: its length, high byte first, and then its code. */
  ghost predicate Compressed(buffer: seq<byte>, m: seq<Symbol>) {
    && |m| < 0x10000 && |buffer| == CompressedSize(m)
    && buffer[0] == |m| / 256 && buffer[1] == |m| % 256
    && Bits(buffer, 16, 16 + |Encode(Fresh(), m)|) == Encode(Fresh(), m)
  }

  /** Huff_Compress, for messages whose compressed form fits the buffers. */
  method Compress(mbuf: MsgData, offset: nat)
    requires 0 <= mbuf.cursize <= mbuf.data.Length && mbuf.cursize - offset < 0x10000
    requires offset < mbuf.cursize ==>
      CompressedSize(mbuf.data[offset..mbuf.cursize]) <= SEQ_SIZE
      && offset + CompressedSize(mbuf.data[offset..mbuf.cursize]) <= mbuf.data.Length
    modifies mbuf`cursize, mbuf.data
    ensures if offset >= old(mbuf.cursize) then mbuf.cursize == old(mbuf.cursize) && mbuf.data[..] == old(mbuf.data[..])
      else
        var m := old(mbuf.data[offset..mbuf.cursize]);
        && mbuf.cursize == offset + CompressedSize(m) <= mbuf.data.Length
        && mbuf.data[..offset] == old(mbuf.data[..offset])
        && Compressed(mbuf.data[offset..mbuf.cursize], m)
  {
    hide Invariant, Encode, Appended, Blocks, Chained, FreeChain, Cells, Ranked, Bits;
    var size := mbuf.cursize - offset;
    if size <= 0 {
      return;
    }
    ghost var m := mbuf.data[offset..mbuf.cursize];
    var seq0 := new byte[SEQ_SIZE];
    var huff := new Huff();
    seq0[0] := size / 256;
    seq0[1] := size % 256;
    var cur := new Cursor(16);
    ghost var before := seq0[..];
    EncodeLoop(huff, mbuf.data, offset, size, cur, seq0);
    cur.bloc := cur.bloc + 8;
    mbuf.cursize := cur.bloc / 8 + offset;
    CopyBytes(mbuf.data, offset, seq0, cur.bloc / 8);
    IsCompressed(before, seq0[..], m, mbuf.data[offset..mbuf.cursize]);
  }

  /** What the loop of Huff_Compress leaves, cut to the size it computes, is the compressed form. */
  lemma IsCompressed(before: seq<byte>, after: seq<byte>, m: seq<Symbol>, buffer: seq<byte>)
    requires |before| >= 2 && |m| < 0x10000 && before[0] == |m| / 256 && before[1] == |m| % 256
    requires Appended(before, 16, Encode(Fresh(), m), after) && CompressedSize(m) <= |after|
    requires buffer == after[..CompressedSize(m)]
    ensures Compressed(buffer, m)
  {
    hide Appended, Bits, Encode;
    var bits := Encode(Fresh(), m);
    AppendedReadsBack(before, 16, bits, after);
    SameBytesSameBits(buffer, after, 16, 16 + |bits|, CompressedSize(m));
    forall k | 0 <= k < 2 ensures after[k] == before[k] {
      SameBitsSameByte(before, after, k);
    }
  }

  /** The length is in the first two bytes, the high one first; bit k of the code is bit k % 8 of a byte. */
  lemma CompressedIs(buffer: seq<byte>, m: seq<Symbol>)
    requires Compressed(buffer, m)
    ensures |buffer| >= 2 && 256 * (buffer[0] as int) + buffer[1] == |m|
    ensures
      var bits := Encode(Fresh(), m);
      forall k | 0 <= k < |bits| :: (16 + k) / 8 < |buffer| && (Bit(buffer[(16 + k) / 8], k % 8) <==> bits[k])
  {
    hide Encode, Bit;
    var bits := Encode(Fresh(), m);
    forall k | 0 <= k < |bits|
      ensures (16 + k) / 8 < |buffer| && (Bit(buffer[(16 + k) / 8], k % 8) <==> bits[k])
    {
      assert Bits(buffer, 16, 16 + |bits|)[k] == bits[k];
      assert (16 + k) % 8 == k % 8;
    }
  }

  lemma SameBitsSameByte(a: seq<byte>, b: seq<byte>, k: nat)
    requires k < 2 && 2 <= |a| && 2 <= |b| && Bits(a, 0, 16) == Bits(b, 0, 16)
    ensures a[k] == b[k]
  {
    forall j: nat | j < 8 ensures Bit(a[k], j) == Bit(b[k], j) {
      assert Bits(a, 0, 16)[8 * k + j] == Bits(b, 0, 16)[8 * k + j];
      assert BitAt(a, 8 * k + j) == BitAt(b, 8 * k + j);
    }
    ByteFits(a[k]);
    ByteFits(b[k]);
    SameBits(a[k], b[k], 8);
  }

  /** Com_Memcpy( to + at, from, n ) */
  method CopyBytes(to: array<byte>, at: nat, from: array<byte>, n: nat)
    requires at + n <= to.Length && n <= from.Length && to != from
    modifies to
    ensures to[..] == old(to[..at]) + from[..n] + old(to[at + n..])
  {
    var i := 0;
    while i < n
      invariant 0 <= i <= n
      invariant to[..] == old(to[..at]) + from[..i] + old(to[at + i..])
    {
      to[at + i] := from[i];
      i := i + 1;
    }
  }

  /** The loop of Huff_Compress. */
  method EncodeLoop(huff: Huff, data: array<byte>, offset: nat, size: nat, cur: Cursor, out: array<byte>)
    requires data != out && offset + size <= data.Length && cur.bloc == 16 && out.Length >= 2
    requires huff.Represented(NIL) && huff.Abs() == Fresh()
    requires 16 + |Encode(Fresh(), data[offset..offset + size])| <= 8 * out.Length
    modifies huff, cur, out
    ensures var bits := Encode(Fresh(), data[offset..offset + size]);
      cur.bloc == 16 + |bits| && Appended(old(out[..]), 16, bits, out[..])
  {
    hide Invariant, Encode, Appended, Transmit, AddRef, Blocks, Chained, FreeChain, Cells, Ranked, Bits;
    ghost var before, m := out[..], data[offset..offset + size];
    ghost var code: seq<bool> := [];
    NothingAppended(before, 16);
    assert m[0..] == m && [] + Encode(Fresh(), m) == Encode(Fresh(), m);
    var i := 0;
    while i < size
      invariant 0 <= i <= size && data[offset..offset + size] == m
      invariant huff.Represented(NIL) && Reachable(huff.Abs())
      invariant code + Encode(huff.Abs(), m[i..]) == Encode(Fresh(), m)
      invariant cur.bloc == 16 + |code| && Appended(before, 16, code, out[..])
    {
      EncodeUnfolds(huff.Abs(), m, i, code);
      var ch := data[offset + i];
      code := EncodeStep(huff, ch, cur, out, before, code);
      i := i + 1;
    }
    assert m[i..] == [];
    EncodeNothing(huff.Abs());
    assert code == Encode(Fresh(), m);
  }

  lemma EncodeNothing(s: Fgk)
    requires Reachable(s)
    ensures Encode(s, []) == []
  {
  }

  lemma EncodeUnfolds(s: Fgk, m: seq<Symbol>, i: nat, code: seq<bool>)
    requires Reachable(s) && i < |m|
    ensures code + Encode(s, m[i..]) == code + Transmit(s, m[i]) + Encode(AddRef(s, m[i]), m[i + 1..])
  {
    hide Invariant, Transmit, AddRef;
    assert m[i..][1..] == m[i + 1..];
  }

  /** One turn of the loop of Huff_Compress. */
  method EncodeStep(huff: Huff, ch: Symbol, cur: Cursor, out: array<byte>,
                    ghost before: seq<byte>, ghost code: seq<bool>)
    returns (ghost code': seq<bool>)
    requires huff.Represented(NIL) && Reachable(huff.Abs())
    requires cur.bloc == 16 + |code| && Appended(before, 16, code, out[..])
    requires cur.bloc + |Transmit(huff.Abs(), ch)| <= 8 * out.Length
    modifies huff, cur, out
    ensures huff.Represented(NIL) && huff.Abs() == AddRef(old(huff.Abs()), ch)
    ensures code' == code + Transmit(old(huff.Abs()), ch)
    ensures cur.bloc == 16 + |code'| && Appended(before, 16, code', out[..])
  {
    hide Invariant, Appended, Transmit, AddRef, Blocks, Chained, FreeChain, Cells, Ranked, Bits;
    ghost var bits, middle := Transmit(huff.Abs(), ch), out[..];
    AppendedFits(before, 16, code, middle);
    TransmitSymbol(huff, ch, cur, out);
    AppendedTwice(before, 16, code, middle, bits, out[..]);
    code' := code + bits;
    huff.AddRef(ch);
  }

  /** The bits a literal byte is read from, the highest first. */
  method ReceiveByte(cur: Cursor, fin: array<byte>, base: nat, ghost end: nat) returns (ch: int)
    requires base <= fin.Length && cur.bloc + 8 <= end <= 8 * (fin.Length - base)
    modifies cur
    ensures cur.bloc == old(cur.bloc) + 8
    ensures ch == Number(Bits(fin[base..], old(cur.bloc), end)[..8])
    ensures Bits(fin[base..], cur.bloc, end) == Bits(fin[base..], old(cur.bloc), end)[8..]
  {
    ch := 0;
    var i := 0;
    while i < 8
      invariant 0 <= i <= 8 && cur.bloc == old(cur.bloc) + i
      invariant ch == Number(Bits(fin[base..], old(cur.bloc), end)[..i])
    {
      var bit := cur.GetBit(fin, base);
      ghost var all := Bits(fin[base..], old(cur.bloc), end);
      assert bit == all[i] && all[..i + 1][..i] == all[..i];
      ch := Shift(ch, bit);
      i := i + 1;
    }
  }

  /** One turn of the loop of Huff_Decompress. */
  method DecodeStep(huff: Huff, cur: Cursor, fin: array<byte>, base: nat, ghost end: nat) returns (ch: int)
    requires huff.Represented(NIL) && Reachable(huff.Abs())
    requires huff.Abs().tree.Shaped() && base <= fin.Length && cur.bloc <= end <= 8 * (fin.Length - base)
    requires Receives(huff.Abs().tree, Bits(fin[base..], cur.bloc, end))
    modifies huff, cur
    ensures huff.Represented(NIL) && 0 <= ch < 256 && huff.Abs() == AddRef(old(huff.Abs()), ch)
    ensures old(cur.bloc) <= cur.bloc <= end
    ensures Receive(old(huff.Abs().tree), old(Bits(fin[base..], cur.bloc, end)))
      == Got(ch, Bits(fin[base..], cur.bloc, end))
  {
    hide Invariant, AddRef, Blocks, Chained, FreeChain, Cells, Ranked, Bits, Walk, Number;
    ch := ReceiveSymbol(huff, cur, fin, base, end);
    if ch == NYT {
      ch := ReceiveByte(cur, fin, base, end);
    }
    huff.AddRef(ch);
  }

  /** A byte can be received from the bits. */
  predicate Receives(t: Tree, bits: seq<bool>)
    requires t.Shaped()
  {
    Receive(t, bits).Got? && 0 <= Receive(t, bits).symbol < 256
  }

  lemma DecodesNothing(s: Fgk, bits: seq<bool>)
    requires Reachable(s)
    ensures Decode(s, 0, bits) == Message([], bits)
  {
  }

  /** The first of several symbols is received, and the rest is decoded with the next tree. */
  lemma DecodesFirst(s: Fgk, n: nat, bits: seq<bool>)
    requires Reachable(s) && n > 0 && Decode(s, n, bits).Message?
    ensures s.tree.Shaped() && Receives(s.tree, bits)
    ensures
      var Got(c, rest) := Receive(s.tree, bits);
      && Decode(AddRef(s, c), n - 1, rest).Message?
      && Decode(s, n, bits).m == [c as Symbol] + Decode(AddRef(s, c), n - 1, rest).m
  {
    hide Invariant, Receive, AddRef;
    assert s.tree.Shaped() by { ReachableIsShaped(s); }
  }

  lemma ReachableIsShaped(s: Fgk)
    requires Reachable(s)
    ensures s.tree.Shaped()
  {
  }

  lemma {:induction false} DecodedLength(s: Fgk, n: nat, bits: seq<bool>)
    requires Reachable(s) && Decode(s, n, bits).Message?
    ensures |Decode(s, n, bits).m| == n
    decreases n
  {
    hide Invariant, Receive, AddRef;
    if n > 0 {
      DecodesFirst(s, n, bits);
      DecodedLength(AddRef(s, Receive(s.tree, bits).symbol), n - 1, Receive(s.tree, bits).rest);
    }
  }

  /** The loop of Huff_Decompress. The check against reading past the message never fires. */
  method DecodeLoop(huff: Huff, cch: nat, cur: Cursor, fin: array<byte>, base: nat, size: nat, out: array<byte>)
    requires huff.Represented(NIL) && huff.Abs() == Fresh() && cur.bloc == 16
    requires fin != out && base + size <= fin.Length && size >= 2 && cch <= out.Length
    requires Decode(Fresh(), cch, Bits(fin[base..], 16, 8 * size)).Message?
    modifies huff, cur, out
    ensures out[..cch] == Decode(Fresh(), cch, Bits(fin[base..], 16, 8 * size)).m
  {
    hide Invariant, Decode, Receive, Receives, AddRef, Blocks, Chained, FreeChain, Cells, Ranked, Bits;
    ghost var all := Decode(Fresh(), cch, Bits(fin[base..], 16, 8 * size));
    assert [] + all.m == all.m;
    var j := 0;
    while j < cch
      invariant 0 <= j <= cch && cur.bloc <= 8 * size
      invariant huff.Represented(NIL) && Reachable(huff.Abs())
      invariant ghost var d := Decode(huff.Abs(), cch - j, Bits(fin[base..], cur.bloc, 8 * size));
        d.Message? && out[..j] + d.m == all.m
    {
      if cur.bloc / 8 > size {
        assert false;
        break;
      }
      ghost var bits := Bits(fin[base..], cur.bloc, 8 * size);
      DecodesFirst(huff.Abs(), cch - j, bits);
      var ch := DecodeStep(huff, cur, fin, base, 8 * size);
      out[j] := ch;
      j := j + 1;
    }
    DecodesNothing(huff.Abs(), Bits(fin[base..], cur.bloc, 8 * size));
  }

  /** The length Huff_Decompress takes from the header, kept within the buffer. */
  function HeaderLength(buffer: seq<byte>, room: int): int
    requires |buffer| >= 2
  {
    var cch := buffer[0] as int * 256 + buffer[1];
    if cch > room then room else cch
  }

  /** What Huff_Decompress makes of a buffer. */
  ghost function Expanded(buffer: seq<byte>, room: nat): Decoded
    requires |buffer| >= 2
  {
    Decode(Fresh(), HeaderLength(buffer, room), Bits(buffer, 16, 8 * |buffer|))
  }

  /** Huff_Decompress, for buffers that hold as many symbols as their header says. */
  method Decompress(mbuf: MsgData, offset: nat)
    requires 0 <= mbuf.cursize <= mbuf.data.Length && offset <= mbuf.maxsize <= mbuf.data.Length
    requires offset < mbuf.cursize ==>
      && offset + 2 <= mbuf.cursize
      && Expanded(mbuf.data[offset..mbuf.cursize], mbuf.maxsize - offset).Message?
    modifies mbuf`cursize, mbuf.data
    ensures if offset >= old(mbuf.cursize) then mbuf.cursize == old(mbuf.cursize) && mbuf.data[..] == old(mbuf.data[..])
      else
        var m := old(Expanded(mbuf.data[offset..mbuf.cursize], mbuf.maxsize - offset)).m;
        && mbuf.cursize == offset + |m| <= mbuf.data.Length
        && mbuf.data[..] == old(mbuf.data[..offset]) + m + old(mbuf.data[offset + |m|..])
  {
    hide Invariant, Decode, Receive, AddRef, Blocks, Chained, FreeChain, Cells, Ranked, Bits;
    var size := mbuf.cursize - offset;
    if size <= 0 {
      return;
    }
    ghost var buffer := mbuf.data[offset..mbuf.cursize];
    var seq0 := new byte[SEQ_SIZE];
    var huff := new Huff();
    var cch := mbuf.data[offset] as int * 256 + mbuf.data[offset + 1];
    if cch > mbuf.maxsize - offset {
      cch := mbuf.maxsize - offset;
    }
    assert cch == HeaderLength(buffer, mbuf.maxsize - offset);
    var cur := new Cursor(16);
    SameBytesSameBits(buffer, mbuf.data[offset..], 16, 8 * size, size);
    DecodedLength(Fresh(), cch, Bits(buffer, 16, 8 * size));
    DecodeLoop(huff, cch, cur, mbuf.data, offset, size, seq0);
    mbuf.cursize := cch + offset;
    CopyBytes(mbuf.data, offset, seq0, cch);
  }

  /** A compressed message expands to the message. */
  lemma CompressedExpands(buffer: seq<byte>, m: seq<Symbol>, room: nat)
    requires Compressed(buffer, m) && |m| <= room
    ensures |buffer| >= 2 && Expanded(buffer, room).Message? && Expanded(buffer, room).m == m
  {
    hide Invariant, Encode, Decode, Bits;
    var bits := Encode(Fresh(), m);
    BitsSplit(buffer, 16, 16 + |bits|, 8 * |buffer|);
    RoundTrip(Fresh(), m, Bits(buffer, 16 + |bits|, 8 * |buffer|));
  }

  /** Huff_Decompress after Huff_Compress restores the message and its size. */
  method CompressThenDecompress(mbuf: MsgData, offset: nat)
    requires offset < mbuf.cursize <= mbuf.maxsize <= mbuf.data.Length && mbuf.cursize - offset < 0x10000
    requires CompressedSize(mbuf.data[offset..mbuf.cursize]) <= SEQ_SIZE
      && offset + CompressedSize(mbuf.data[offset..mbuf.cursize]) <= mbuf.data.Length
    modifies mbuf`cursize, mbuf.data
    ensures mbuf.cursize == old(mbuf.cursize)
    ensures mbuf.data[..mbuf.cursize] == old(mbuf.data[..mbuf.cursize])
  {
    hide Compressed, CompressedSize, Expanded;
    ghost var m := mbuf.data[offset..mbuf.cursize];
    ghost var start := mbuf.data[..offset];
    assert mbuf.data[..mbuf.cursize] == start + m;
    Compress(mbuf, offset);
    CompressedExpands(mbuf.data[offset..mbuf.cursize], m, mbuf.maxsize - offset);
    SizeIsPositive(m);
    Decompress(mbuf, offset);
  }

  lemma SizeIsPositive(m: seq<Symbol>)
    ensures CompressedSize(m) >= 3
  {
    hide Encode;
  }
}
