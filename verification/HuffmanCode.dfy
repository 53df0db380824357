/**
  The code an adaptive Huffman tree stands for, and the coding of whole messages with it: what
  Huff_transmit writes and Huff_Receive reads (Shared/huffman.c), as functions on bit sequences.
 */
module HuffmanCode {
  import opened HuffmanTree
  import opened BitStream

  /** The path from the root to x, a right turn being true. */
  ghost function Code(s: Fgk, x: int): (r: seq<bool>)
    requires Valid(s) && s.tree.Node(x)
    decreases s.tree.size - s.list.rank[x]
  {
    if x == s.tree.root then []
    else
      Climb(s, x);
      Code(s, s.tree.parent[x]) + [s.tree.right[s.tree.parent[x]] == x]
  }

  /** The parent of a node that is not the root. */
  lemma Climb(s: Fgk, x: int)
    requires Valid(s) && s.tree.Node(x) && x != s.tree.root
    ensures var p := s.tree.parent[x];
      && s.tree.Node(p) && s.tree.Internal(p) && s.tree.IsChild(x, p) && s.tree.left[p] != s.tree.right[p]
      && s.list.rank[x] < s.list.rank[p] < s.tree.size
  {
    hide Labelled, Sorted, Summed, Bottom, Paired;
    assert s.tree.left[s.tree.parent[x]] != s.tree.right[s.tree.parent[x]];
  }

  datatype Walked = Stuck | At(node: int, rest: seq<bool>)

  /** Follows bits down the tree from node x to a leaf. */
  function Walk(t: Tree, x: int, bits: seq<bool>): Walked
    requires t.Shaped()
    decreases |bits|
  {
    if !t.Node(x) then Stuck
    else if !t.Internal(x) then At(x, bits)
    else if bits == [] then Stuck
    else Walk(t, if bits[0] then t.right[x] else t.left[x], bits[1..])
  }

  /** Walking down x's code leads to x. */
  lemma {:induction false} WalkCode(s: Fgk, x: int, rest: seq<bool>)
    requires Valid(s) && s.tree.Node(x)
    ensures Walk(s.tree, s.tree.root, Code(s, x) + rest) == Walk(s.tree, x, rest)
    decreases s.tree.size - s.list.rank[x]
  {
    hide Linked, Ranked, Labelled, Sorted, Summed, Laid;
    if x == s.tree.root {
      assert Code(s, x) + rest == rest;
    } else {
      Climb(s, x);
      var p := s.tree.parent[x];
      var b := s.tree.right[p] == x;
      WalkCode(s, p, [b] + rest);
      assert Code(s, x) + rest == Code(s, p) + ([b] + rest);
      assert ([b] + rest)[1..] == rest;
    }
  }

  /** No code of a leaf starts another one's. */
  lemma PrefixFree(s: Fgk, x: int, y: int, rest: seq<bool>)
    requires Valid(s) && s.tree.Node(x) && s.tree.Node(y) && !s.tree.Internal(x) && !s.tree.Internal(y)
    requires Code(s, y) == Code(s, x) + rest
    ensures x == y
  {
    WalkCode(s, x, rest);
    WalkCode(s, y, []);
    assert Code(s, y) + [] == Code(s, x) + rest;
  }

  /** The n lowest bits of v, the highest first. */
  function HighFirst(v: nat, n: nat): (r: seq<bool>)
    ensures |r| == n
  {
    if n == 0 then [] else HighFirst(v / 2, n - 1) + [v % 2 == 1]
  }

  /** The bits Huff_transmit sends for a byte, bit 7 first. */
  function ByteBits(c: Symbol): (r: seq<bool>)
    ensures |r| == 8
  {
    HighFirst(c, 8)
  }

  lemma {:induction false} HighFirstBit(v: nat, n: nat, k: nat)
    requires k < n
    ensures HighFirst(v, n)[k] == Bit(v, n - 1 - k)
  {
    if k < n - 1 { HighFirstBit(v / 2, n - 1, k); }
  }

  function Shift(v: int, bit: bool): int {
    2 * v + if bit then 1 else 0
  }

  /** The number that the bits spell, the highest first. */
  function Number(bits: seq<bool>): (v: nat) {
    if bits == [] then 0 else Shift(Number(bits[..|bits| - 1]), bits[|bits| - 1])
  }

  /** The bits Huff_transmit writes for c. */
  ghost function Transmit(s: Fgk, c: Symbol): (r: seq<bool>)
    requires Valid(s) && |s.loc| == NYT + 1
  {
    NytHasLeaf(s);
    if s.loc[c] == NIL then Code(s, s.loc[NYT]) + ByteBits(c) else LeafOf(s, c); Code(s, s.loc[c])
  }

  lemma NytHasLeaf(s: Fgk)
    requires Valid(s)
    ensures |s.loc| == NYT + 1 && s.tree.Node(s.loc[NYT]) && s.tree.symbol[s.loc[NYT]] == NYT
  {
  }

  lemma LeafOf(s: Fgk, c: Symbol)
    requires Valid(s) && |s.loc| == NYT + 1 && s.loc[c] != NIL
    ensures s.tree.Node(s.loc[c]) && s.tree.symbol[s.loc[c]] == c
  {
  }

  datatype Received = Failed | Got(symbol: int, rest: seq<bool>)

  /** What the decoder makes of the next bits: a known symbol, or after NYT a literal byte. */
  function Receive(t: Tree, bits: seq<bool>): Received
    requires t.Shaped()
  {
    match Walk(t, t.root, bits)
    case Stuck => Failed
    case At(x, rest) =>
      if !t.Node(x) then Failed
      else if t.symbol[x] != NYT then Got(t.symbol[x], rest)
      else if |rest| < 8 then Failed
      else Got(Number(rest[..8]), rest[8..])
  }

  lemma {:induction false} NumberOfBits(v: nat, n: nat)
    requires v < Pow2(n)
    ensures Number(HighFirst(v, n)) == v
  {
    if n > 0 {
      NumberOfBits(v / 2, n - 1);
      assert HighFirst(v, n)[..n - 1] == HighFirst(v / 2, n - 1);
    }
  }

  lemma ByteFits(c: Symbol)
    ensures c < Pow2(8)
  {
    assert Pow2(8) == 2 * Pow2(7) == 4 * Pow2(6) == 8 * Pow2(5) == 16 * Pow2(4) == 256;
  }

  /** Receiving what was transmitted gives the symbol back and consumes exactly its bits. */
  lemma ReceiveTransmitted(s: Fgk, c: Symbol, rest: seq<bool>)
    requires Reachable(s)
    ensures Receive(s.tree, Transmit(s, c) + rest) == Got(c, rest)
  {
    NytHasLeaf(s);
    if s.loc[c] == NIL {
      var z := s.loc[NYT];
      WalkCode(s, z, ByteBits(c) + rest);
      assert Transmit(s, c) + rest == Code(s, z) + (ByteBits(c) + rest);
      assert (ByteBits(c) + rest)[..8] == ByteBits(c) && (ByteBits(c) + rest)[8..] == rest;
      ByteFits(c);
      NumberOfBits(c, 8);
    } else {
      LeafOf(s, c);
      WalkCode(s, s.loc[c], rest);
    }
  }

  /** The bits Huff_Compress writes for the symbols of m, starting with tree s. */
  ghost function Encode(s: Fgk, m: seq<Symbol>): seq<bool>
    requires Reachable(s)
    decreases |m|
  {
    if m == [] then [] else Transmit(s, m[0]) + Encode(AddRef(s, m[0]), m[1..])
  }

  datatype Decoded = Broken | Message(m: seq<Symbol>, rest: seq<bool>)

  /** The n symbols Huff_Decompress reads from bits, starting with tree s. */
  ghost function Decode(s: Fgk, n: nat, bits: seq<bool>): Decoded
    requires Reachable(s)
    decreases n
  {
    if n == 0 then Message([], bits)
    else
      match Receive(s.tree, bits)
      case Failed => Broken
      case Got(c, rest) =>
        if !(0 <= c < 256) then Broken
        else
          match Decode(AddRef(s, c), n - 1, rest)
          case Broken => Broken
          case Message(m, rest') => Message([c as Symbol] + m, rest')
  }

  /** Decoding an encoded message restores it, whatever follows in the stream. */
  lemma {:induction false} RoundTrip(s: Fgk, m: seq<Symbol>, rest: seq<bool>)
    requires Reachable(s)
    ensures Decode(s, |m|, Encode(s, m) + rest) == Message(m, rest)
    decreases |m|
  {
    hide Invariant, Transmit, Receive, AddRef;
    if m == [] {
      assert Encode(s, m) + rest == rest;
    } else {
      var more := Encode(AddRef(s, m[0]), m[1..]) + rest;
      assert Encode(s, m) + rest == Transmit(s, m[0]) + more;
      ReceiveTransmitted(s, m[0], more);
      RoundTrip(AddRef(s, m[0]), m[1..], rest);
    }
  }

  /** The tree both sides start with. */
  ghost function Fresh(): (r: Fgk)
    ensures Reachable(r)
  {
    InitialIsReachable();
    Initial()
  }
}
