/**
  The adaptive (FGK) Huffman tree of Shared/huffman.c as a value.

  A tree node is a number below MAX_NODES, the index of its slot in the coder's node table, and
  NIL is the null pointer. A Ranking lists the nodes in use from the lowest rank (the NYT node)
  to the highest. The doubly linked list and the shared block-leader cells of the program
  represent the ranking; they live in the class HuffmanCoder.Huff.
 */
module HuffmanTree {
  const NIL := -1
  const NYT := 256
  const INTERNAL := 257
  const MAX_NODES := 768

  type Symbol = c: int | 0 <= c < 256 witness 0

  /** The tree pointers and the symbols of the first `size` nodes. */
  datatype Tree = Tree(size: int, left: seq<int>, right: seq<int>, parent: seq<int>, symbol: seq<int>, root: int)
  {
    /** x is the index of a node in use */
    predicate Node(x: int) {
      0 <= x < size
    }

    predicate Shaped() {
      1 <= size <= MAX_NODES && |left| == |right| == |parent| == |symbol| == MAX_NODES
    }

    predicate Internal(x: int)
      requires Shaped() && Node(x)
    {
      symbol[x] == INTERNAL
    }

    predicate IsChild(x: int, p: int)
      requires Shaped() && Node(p)
    {
      left[p] == x || right[p] == x
    }
  }

  /** `order` lists nodes by rank; `rank` is its inverse. */
  datatype Ranking = Ranking(order: seq<int>, rank: seq<int>)

  datatype Fgk = Fgk(tree: Tree, list: Ranking, weight: seq<int>, loc: seq<int>)

  /** The list holds exactly the first n nodes, and `rank` is its inverse. */
  ghost predicate Ranked(q: Ranking, n: int) {
    && |q.order| == n && |q.rank| == MAX_NODES && n <= MAX_NODES
    && (forall i {:trigger q.order[i]} | 0 <= i < n :: 0 <= q.order[i] < n)
    && (forall i {:trigger q.rank[q.order[i]]} | 0 <= i < n :: q.rank[q.order[i]] == i)
    && (forall x {:trigger q.rank[x]} | 0 <= x < n :: 0 <= q.rank[x] < n && q.order[q.rank[x]] == x)
  }

  /** Parent and child pointers agree: every node but the root hangs from exactly one internal
      node, and every internal node has two different children. */
  ghost predicate Linked(t: Tree) {
    && t.Shaped() && t.Node(t.root) && t.parent[t.root] == NIL
    && (forall x {:trigger t.parent[x]} | t.Node(x) && x != t.root ::
          t.Node(t.parent[x]) && t.Internal(t.parent[x]) && t.IsChild(x, t.parent[x]))
    && (forall x {:trigger t.left[x]} {:trigger t.right[x]} | t.Node(x) && t.Internal(x) ::
          && t.Node(t.left[x]) && t.Node(t.right[x]) && t.left[x] != t.right[x]
          && t.parent[t.left[x]] == x && t.parent[t.right[x]] == x)
  }

  /** `loc` is the inverse of the leaf labels, and node `nyt` is the NYT leaf. */
  ghost predicate Labelled(t: Tree, loc: seq<int>, nyt: int)
    requires t.Shaped()
  {
    && |loc| == NYT + 1 && loc[NYT] == nyt
    && (forall x {:trigger t.symbol[x]} | t.Node(x) && !t.Internal(x) ::
         0 <= t.symbol[x] <= NYT && loc[t.symbol[x]] == x)
    && (forall c {:trigger loc[c]} | 0 <= c <= NYT :: loc[c] == NIL || (t.Node(loc[c]) && t.symbol[loc[c]] == c))
  }

  /** Weights never decrease along the list; only the NYT node weighs nothing. */
  ghost predicate Sorted(q: Ranking, weight: seq<int>, n: int)
    requires Ranked(q, n) && n > 0
  {
    && |weight| == MAX_NODES && weight[q.order[0]] == 0
    && (forall i | 0 < i < n :: weight[q.order[i]] >= 1)
    && (forall i, j | 0 <= i < j < n :: weight[q.order[i]] <= weight[q.order[j]])
  }

  /** Every internal node weighs as much as its children together, except that node d, whose
      turn to be incremented it is, still weighs one less. */
  ghost predicate Summed(t: Tree, weight: seq<int>, d: int)
    requires Linked(t) && |weight| == MAX_NODES
  {
    forall x {:trigger t.left[x]} {:trigger t.right[x]} | t.Node(x) && t.Internal(x) ::
      weight[x] + (if x == d then 1 else 0) == weight[t.left[x]] + weight[t.right[x]]
  }

  /** Every parent ranks above its children. */
  ghost predicate Ascending(t: Tree, q: Ranking)
    requires Linked(t) && |q.rank| == MAX_NODES
  {
    forall x {:trigger t.parent[x]} | t.Node(x) && x != t.root :: q.rank[x] < q.rank[t.parent[x]]
  }

  /** The nodes at ranks 0 and 1 are the children of the node at rank 2. */
  ghost predicate Bottom(t: Tree, q: Ranking)
    requires Linked(t) && Ranked(q, t.size)
  {
    && t.size != 2
    && (t.size > 2 ==> t.parent[q.order[0]] == q.order[2] && t.parent[q.order[1]] == q.order[2])
  }

  /** Gallager's sibling property: the nodes, listed by rank, come in sibling pairs. */
  ghost predicate Paired(t: Tree, q: Ranking)
    requires Linked(t) && Ranked(q, t.size)
  {
    && t.size % 2 == 1
    && forall i, j | 0 <= i < j < t.size && j == i + 1 && i % 2 == 0 :: t.parent[q.order[i]] == t.parent[q.order[j]]
  }

  /** A weighted tree with labelled leaves whose nodes are listed by weight; node d still weighs
      one less than its children do. */
  ghost predicate Weighted(s: Fgk, d: int) {
    && s.tree.Shaped() && |s.weight| == MAX_NODES
    && Linked(s.tree) && Ranked(s.list, s.tree.size)
    && Labelled(s.tree, s.loc, s.list.order[0])
    && Sorted(s.list, s.weight, s.tree.size) && Summed(s.tree, s.weight, d)
  }

  /** Exchanges the ranks of nodes a and b (the effect of swaplist). */
  function SwapRanks(q: Ranking, a: int, b: int): (r: Ranking)
    requires 0 <= a < |q.rank| && 0 <= b < |q.rank|
    requires 0 <= q.rank[a] < |q.order| && 0 <= q.rank[b] < |q.order|
  {
    Ranking(q.order[q.rank[a] := b][q.rank[b] := a], q.rank[a := q.rank[b]][b := q.rank[a]])
  }

  /** Renames a to b and b to a. */
  function Renamed(x: int, a: int, b: int): int {
    if x == a then b else if x == b then a else x
  }

  /** The child table ks with a and b exchanged in the rows of the internal nodes. */
  function RenamedRows(t: Tree, ks: seq<int>, a: int, b: int): (r: seq<int>)
    requires t.Shaped() && |ks| == MAX_NODES
    ensures |r| == |ks|
    ensures forall p | 0 <= p < |ks| ::
      r[p] == if t.Node(p) && t.Internal(p) then Renamed(ks[p], a, b) else ks[p]
  {
    seq(|ks|, p requires 0 <= p < |ks| => if t.Node(p) && t.Internal(p) then Renamed(ks[p], a, b) else ks[p])
  }

  /** a is the left and b the right child of the same node */
  predicate LeftSibling(t: Tree, a: int, b: int)
    requires t.Shaped() && t.Node(a) && t.Node(b)
  {
    t.parent[a] == t.parent[b] && t.Node(t.parent[a]) && t.left[t.parent[a]] == a
  }

  /** The tree with the subtrees at a and b exchanged (the effect of swap). When a is the left
      sibling of b, the program's two assignments cancel out. */
  function SwapSubtrees(t: Tree, a: int, b: int): (r: Tree)
    requires t.Shaped() && t.Node(a) && t.Node(b)
    ensures r.Shaped() && r.size == t.size && r.symbol == t.symbol
  {
    if LeftSibling(t, a, b) then t
    else t.(left := RenamedRows(t, t.left, a, b), right := RenamedRows(t, t.right, a, b),
            parent := t.parent[a := t.parent[b]][b := t.parent[a]],
            root := Renamed(t.root, a, b))
  }

  /** The ranking that a state in the middle of an increment will have again at its end: with
      `flipped`, the two nodes above NYT are in the wrong order for the moment. */
  function Settled(q: Ranking, flipped: bool): (r: Ranking)
    requires Ranked(q, |q.order|) && (flipped ==> |q.order| > 2)
    ensures Ranked(r, |q.order|)
    ensures r.order == if flipped then q.order[1 := q.order[2]][2 := q.order[1]] else q.order
  {
    if flipped then SwapRanks(q, q.order[1], q.order[2]) else q
  }

  ghost predicate Laid(t: Tree, q: Ranking)
    requires Linked(t) && Ranked(q, t.size)
  {
    Ascending(t, q) && Bottom(t, q) && Paired(t, q)
  }

  /** The invariant of the adaptive tree while node d is about to be incremented. */
  ghost predicate Invariant(s: Fgk, flipped: bool, d: int) {
    && Weighted(s, d)
    && (flipped ==> s.tree.size > 2)
    && Laid(s.tree, Settled(s.list, flipped))
  }

  /** Node x is next to be incremented. */
  ghost predicate Pending(s: Fgk, flipped: bool, x: int) {
    && Invariant(s, flipped, x)
    && s.tree.Node(x) && x != s.list.order[0]
    && (flipped ==> Settled(s.list, flipped).rank[x] >= 2)
  }

  /** The adaptive tree between two symbols. */
  ghost predicate Valid(s: Fgk) {
    Invariant(s, false, NIL)
  }

  /** The rank of the last node whose weight is that of the node ranked i. */
  function LeaderRank(order: seq<int>, weight: seq<int>, i: nat): (b: nat)
    requires i < |order| && forall j | 0 <= j < |order| :: 0 <= order[j] < |weight|
    ensures i <= b < |order|
    ensures forall j | i <= j <= b :: weight[order[j]] == weight[order[i]]
    ensures b + 1 < |order| ==> weight[order[b + 1]] != weight[order[i]]
    decreases |order| - i
  {
    if i + 1 < |order| && weight[order[i + 1]] == weight[order[i]] then LeaderRank(order, weight, i + 1) else i
  }

  /** The highest node of x's weight block. */
  function Leader(q: Ranking, weight: seq<int>, x: int): (l: int)
    requires Ranked(q, |q.order|) && |weight| == MAX_NODES && 0 <= x < |q.order|
    ensures 0 <= l < |q.order| && weight[l] == weight[x] && q.rank[x] <= q.rank[l]
  {
    q.order[LeaderRank(q.order, weight, q.rank[x])]
  }

  ghost function LeaderOf(s: Fgk, x: int): (l: int)
    requires Ranked(s.list, s.tree.size) && |s.weight| == MAX_NODES && s.tree.Node(x)
  {
    Leader(s.list, s.weight, x)
  }

  /** r has the same lowest node as s */
  ghost predicate SameBottom(s: Fgk, r: Fgk) {
    |s.list.order| > 0 && |r.list.order| > 0 && r.list.order[0] == s.list.order[0]
  }

  /** Brings x to the top of its weight block, subtree and rank; when the leader is its own
      parent only the ranks are exchanged. */
  ghost function Promote(s: Fgk, x: int): (r: Fgk)
    requires s.tree.Shaped() && Ranked(s.list, s.tree.size) && |s.weight| == MAX_NODES && s.tree.Node(x)
  {
    var l := LeaderOf(s, x);
    if l == x then s
    else if l == s.tree.parent[x] then s.(list := SwapRanks(s.list, l, x))
    else s.(tree := SwapSubtrees(s.tree, l, x), list := SwapRanks(s.list, l, x))
  }

  function Bump(s: Fgk, x: int): Fgk
    requires 0 <= x < |s.weight|
  {
    s.(weight := s.weight[x := s.weight[x] + 1])
  }

  /** x is a child of the node that leads x's block */
  ghost predicate UnderLeader(s: Fgk, x: int)
    requires Weighted(s, x) && s.tree.Node(x)
  {
    LeaderOf(s, x) == s.tree.parent[x]
  }

  // ---- one step keeps the invariant ----

  /** The other child of x's parent. */
  function Sibling(t: Tree, x: int): int
    requires t.Shaped() && t.Node(x) && t.Node(t.parent[x])
  {
    if t.left[t.parent[x]] == x then t.right[t.parent[x]] else t.left[t.parent[x]]
  }

  lemma SiblingShares(t: Tree, weight: seq<int>, d: int, x: int)
    requires Linked(t) && |weight| == MAX_NODES && Summed(t, weight, d) && t.Node(x) && x != t.root
    ensures t.Node(t.parent[x]) && t.Internal(t.parent[x]) && t.IsChild(x, t.parent[x])
    ensures t.Node(Sibling(t, x)) && Sibling(t, x) != x && Sibling(t, x) != t.root
    ensures t.parent[Sibling(t, x)] == t.parent[x]
    ensures weight[t.parent[x]] + (if t.parent[x] == d then 1 else 0) == weight[x] + weight[Sibling(t, x)]
    ensures forall c | t.Node(c) && c != t.root && t.parent[c] == t.parent[x] :: c == x || c == Sibling(t, x)
  {
    var p := t.parent[x];
    assert t.IsChild(x, p);
    assert t.left[p] != t.right[p];
    forall c | t.Node(c) && c != t.root && t.parent[c] == p ensures c == x || c == Sibling(t, x) {
      assert t.IsChild(c, p);
    }
  }

  /** The only weightless node is NYT. */
  lemma Weightless(s: Fgk, d: int, y: int)
    requires Weighted(s, d) && s.tree.Node(y) && s.weight[y] == 0
    ensures y == s.list.order[0]
  {
    assert s.list.order[s.list.rank[y]] == y;
  }

  /** The two lowest nodes of a ranking are the children of the third, and the lowest is NYT. */
  ghost predicate Family(t: Tree, u: Ranking) {
    && t.Shaped() && Ranked(u, t.size) && t.size > 2 && t.Node(u.order[0]) && t.Node(u.order[1]) && t.Node(u.order[2])
    && u.order[0] != t.root && u.order[1] != t.root
    && t.parent[u.order[0]] == t.parent[u.order[1]] == u.order[2] && Sibling(t, u.order[0]) == u.order[1]
  }

  lemma BottomFamily(t: Tree, u: Ranking, weight: seq<int>, d: int)
    requires Linked(t) && Ranked(u, t.size) && Bottom(t, u) && t.size > 2
    requires |weight| == MAX_NODES && Summed(t, weight, d)
    ensures Family(t, u)
  {
    assert t.Node(u.order[0]) && t.Node(u.order[1]) && u.rank[u.order[0]] != u.rank[u.order[1]];
    assert u.order[0] != t.root && u.order[1] != t.root;
    SiblingShares(t, weight, d, u.order[0]);
  }

  /** The nodes just above NYT in the settled order are its sibling and its parent. */
  lemma NytFamily(s: Fgk, flipped: bool, d: int)
    requires Invariant(s, flipped, d) && s.tree.size > 2
    ensures Ranked(s.list, s.tree.size) && Family(s.tree, Settled(s.list, flipped))
    ensures |s.weight| == MAX_NODES && s.weight[s.list.order[0]] == 0
  {
    hide Linked, Labelled, Ascending, Paired, Summed, Bottom, Settled, Family;
    BottomFamily(s.tree, Settled(s.list, flipped), s.weight, d);
  }

  lemma LeaderRanks(s: Fgk, x: int)
    requires Ranked(s.list, s.tree.size) && |s.weight| == MAX_NODES && s.tree.Node(x)
    ensures s.tree.Node(LeaderOf(s, x)) && s.weight[LeaderOf(s, x)] == s.weight[x]
    ensures LeaderOf(s, x) != x ==> s.list.rank[x] < s.list.rank[LeaderOf(s, x)]
    ensures s.list.rank[LeaderOf(s, x)] == LeaderRank(s.list.order, s.weight, s.list.rank[x])
  {
    assert s.list.order[s.list.rank[x]] == x;
  }

  lemma OnlyChildWeighsAsParent(s: Fgk, flipped: bool, x: int)
    requires Pending(s, flipped, x) && LeaderOf(s, x) != x && UnderLeader(s, x)
    ensures !flipped && s.tree.size > 2 && s.list.order[1] == x && s.list.order[2] == s.tree.parent[x]
  {
    hide Labelled, Sorted, Ascending, Paired, LeaderOf;
    LeaderRanks(s, x);
    assert x != s.tree.root;
    SiblingShares(s.tree, s.weight, x, x);
    assert s.weight[Sibling(s.tree, x)] == 0;
    Weightless(s, x, Sibling(s.tree, x));
    hide Ranked, Summed;
    OnlyChildOf(s, flipped, x);
  }

  lemma OnlyChildOf(s: Fgk, flipped: bool, x: int)
    requires Pending(s, flipped, x) && x != s.tree.root && s.tree.size > 2
    requires s.tree.Node(s.tree.parent[x]) && Sibling(s.tree, x) == s.list.order[0]
    ensures !flipped && s.list.order[1] == x && s.list.order[2] == s.tree.parent[x]
  {
    hide Labelled, Sorted, Ascending, Paired;
    NytFamily(s, flipped, x);
    SiblingShares(s.tree, s.weight, x, s.list.order[0]);
    SiblingShares(s.tree, s.weight, x, x);
    assert x == Settled(s.list, flipped).order[1];
  }

  /** A leader that is not x's parent has no child in x's block. */
  lemma LeaderChildrenAreLower(s: Fgk, flipped: bool, x: int, c: int)
    requires Pending(s, flipped, x) && LeaderOf(s, x) != x && !UnderLeader(s, x)
    requires s.tree.size > 2 && LeaderOf(s, x) != Settled(s.list, flipped).order[2]
    requires s.tree.Node(c) && c != s.tree.root && s.tree.parent[c] == LeaderOf(s, x)
    ensures s.list.rank[c] < s.list.rank[x]
  {
    hide Labelled, Laid, LeaderOf;
    var t, q := s.tree, s.list;
    LeaderRanks(s, x);
    SiblingShares(t, s.weight, x, c);
    NytFamily(s, flipped, x);
    var y := Sibling(t, c);
    assert q.order[q.rank[y]] == y && q.order[q.rank[c]] == c && q.order[q.rank[x]] == x;
    assert y != q.order[0];
    hide Linked, Summed, Settled;
  }

  /** Above the bottom pair, ranks compare as in the settled order. */
  lemma ActualLower(q: Ranking, n: int, f: bool, c: int, x: int)
    requires Ranked(q, n) && 0 <= c < n && 0 <= x < n && (f ==> n > 2 && Settled(q, f).rank[c] != 1)
    requires Settled(q, f).rank[c] < Settled(q, f).rank[x]
    ensures q.rank[c] < q.rank[x]
  {
    var u := Settled(q, f);
    assert u.order[u.rank[x]] == x && u.order[u.rank[c]] == c;
  }

  /** While the bottom pair is flipped, NYT's sibling outweighs its parent if that is pending. */
  lemma FlippedSiblingIsHeavier(s: Fgk, p: int)
    requires Invariant(s, true, p) && s.tree.Node(Settled(s.list, true).order[1])
    ensures p == Settled(s.list, true).order[2] ==> s.weight[Settled(s.list, true).order[1]] == s.weight[p] + 1
    ensures s.tree.parent[Settled(s.list, true).order[1]] == Settled(s.list, true).order[2]
  {
    hide Labelled, Sorted, Ascending, Paired;
    NytFamily(s, true, p);
    SiblingShares(s.tree, s.weight, p, Settled(s.list, true).order[0]);
  }

  /** A child as heavy as its parent ranks below it, flipped or not. */
  lemma EqualChildIsLower(s: Fgk, flipped: bool, p: int, c: int)
    requires Pending(s, flipped, p)
    requires s.tree.Node(c) && c != s.tree.root && s.tree.parent[c] == p
    requires s.weight[c] == s.weight[p]
    ensures s.list.rank[c] < s.list.rank[p]
  {
    hide Labelled, Sorted, Bottom, Paired, Summed;
    var u := Settled(s.list, flipped);
    assert u.rank[c] < u.rank[p] && u.order[u.rank[c]] == c;
    if flipped {
      FlippedSiblingIsHeavier(s, p);
    }
    ActualLower(s.list, s.tree.size, flipped, c, p);
  }

  /** Two nodes of which neither hangs from the other. */
  ghost predicate Apart(t: Tree, a: int, b: int)
    requires t.Shaped()
  {
    t.Node(a) && t.Node(b) && a != b && t.parent[a] != b && t.parent[b] != a
  }

  /** Unless its leader is its parent, x and its leader are unrelated. */
  lemma ApartFromLeader(s: Fgk, flipped: bool, x: int)
    requires Pending(s, flipped, x) && LeaderOf(s, x) != x && !UnderLeader(s, x)
    ensures Apart(s.tree, LeaderOf(s, x), x)
  {
    var l := LeaderOf(s, x);
    if s.tree.parent[l] == x {
      assert l != s.tree.root;
      EqualChildIsLower(s, flipped, x, l);
    }
  }

  /** Where the exchange of a and b hangs x and what it hangs from x. */
  lemma SwappedParent(t: Tree, a: int, b: int, x: int)
    requires Linked(t) && Apart(t, a, b) && !LeftSibling(t, a, b)
    requires t.Node(x) && x != SwapSubtrees(t, a, b).root
    ensures var r := SwapSubtrees(t, a, b);
      && r.parent[x] == t.parent[Renamed(x, a, b)]
      && r.Node(r.parent[x]) && r.Internal(r.parent[x]) && r.IsChild(x, r.parent[x])
  {
    var y := Renamed(x, a, b);
    assert t.Node(y) && y != t.root;
    assert t.Node(t.parent[y]) && t.IsChild(y, t.parent[y]);
  }

  lemma SwappedChildren(t: Tree, a: int, b: int, x: int)
    requires Linked(t) && Apart(t, a, b) && !LeftSibling(t, a, b)
    requires t.Node(x) && t.Internal(x)
    ensures var r := SwapSubtrees(t, a, b);
      && r.left[x] == Renamed(t.left[x], a, b) && r.right[x] == Renamed(t.right[x], a, b)
      && r.Node(r.left[x]) && r.Node(r.right[x]) && r.left[x] != r.right[x]
      && r.parent[r.left[x]] == x && r.parent[r.right[x]] == x
  {
    assert t.parent[t.left[x]] == x;
  }

  lemma SwapSubtreesLinks(t: Tree, a: int, b: int)
    requires Linked(t) && Apart(t, a, b) && !LeftSibling(t, a, b)
    ensures Linked(SwapSubtrees(t, a, b))
  {
    var r := SwapSubtrees(t, a, b);
    assert r.parent[r.root] == NIL;
    forall x | r.Node(x) && x != r.root
      ensures r.Node(r.parent[x]) && r.Internal(r.parent[x]) && r.IsChild(x, r.parent[x])
    {
      SwappedParent(t, a, b, x);
    }
    forall x | r.Node(x) && r.Internal(x)
      ensures r.Node(r.left[x]) && r.Node(r.right[x]) && r.left[x] != r.right[x]
      ensures r.parent[r.left[x]] == x && r.parent[r.right[x]] == x
    {
      SwappedChildren(t, a, b, x);
    }
  }

  lemma SwapSubtreesSums(t: Tree, weight: seq<int>, a: int, b: int, d: int)
    requires Linked(t) && Apart(t, a, b) && !LeftSibling(t, a, b) && Linked(SwapSubtrees(t, a, b))
    requires |weight| == MAX_NODES && weight[a] == weight[b] && Summed(t, weight, d)
    ensures Summed(SwapSubtrees(t, a, b), weight, d)
  {
    var r := SwapSubtrees(t, a, b);
    forall x | r.Node(x) && r.Internal(x)
      ensures weight[x] + (if x == d then 1 else 0) == weight[r.left[x]] + weight[r.right[x]]
    {
      SwappedChildren(t, a, b, x);
      assert weight[x] + (if x == d then 1 else 0) == weight[t.left[x]] + weight[t.right[x]];
    }
  }

  lemma SwapSubtreesKeepsLinks(t: Tree, weight: seq<int>, a: int, b: int, d: int)
    requires Linked(t) && Apart(t, a, b)
    requires |weight| == MAX_NODES && weight[a] == weight[b] && Summed(t, weight, d)
    ensures Linked(SwapSubtrees(t, a, b)) && Summed(SwapSubtrees(t, a, b), weight, d)
  {
    hide Summed;
    if !LeftSibling(t, a, b) {
      SwapSubtreesLinks(t, a, b);
      SwapSubtreesSums(t, weight, a, b, d);
    }
  }

  lemma SwapRanksKeepsSorted(q: Ranking, weight: seq<int>, n: int, a: int, b: int)
    requires n > 0 && Ranked(q, n) && Sorted(q, weight, n)
    requires 0 <= a < n && 0 <= b < n && weight[a] == weight[b] > 0
    ensures var r := SwapRanks(q, a, b);
      && Ranked(r, n) && Sorted(r, weight, n) && r.order[0] == q.order[0]
      && forall i | 0 <= i < n :: weight[r.order[i]] == weight[q.order[i]]
  {
    assert q.order[q.rank[a]] == a && q.order[q.rank[b]] == b;
  }

  lemma SwapRanksKeepsTree(s: Fgk, l: int, x: int)
    requires Weighted(s, x) && s.tree.Node(l) && s.tree.Node(x) && s.weight[l] == s.weight[x] > 0
    ensures Weighted(s.(list := SwapRanks(s.list, l, x)), x)
    ensures SwapRanks(s.list, l, x).order[0] == s.list.order[0]
  {
    SwapRanksKeepsSorted(s.list, s.weight, s.tree.size, l, x);
  }

  lemma SwapSubtreesKeepsTree(s: Fgk, l: int, x: int)
    requires Weighted(s, x) && Apart(s.tree, l, x) && s.weight[l] == s.weight[x]
    ensures Weighted(s.(tree := SwapSubtrees(s.tree, l, x)), x)
  {
    SwapSubtreesKeepsLinks(s.tree, s.weight, l, x, x);
  }

  /** Promotion keeps the tree, the labels and the order by weight, and NYT at the bottom. */
  lemma PromoteKeepsTree(s: Fgk, x: int)
    requires Weighted(s, x) && s.tree.Node(x) && s.weight[x] > 0
    requires LeaderOf(s, x) == x || UnderLeader(s, x) || Apart(s.tree, LeaderOf(s, x), x)
    ensures Weighted(Promote(s, x), x) && SameBottom(s, Promote(s, x))
  {
    hide Linked, Labelled, Sorted, Summed, SwapRanks, SwapSubtrees;
    var l := LeaderOf(s, x);
    if l != x {
      if UnderLeader(s, x) {
        SwapRanksKeepsTree(s, l, x);
      } else {
        SwapSubtreesKeepsTree(s, l, x);
        SwapRanksKeepsTree(s.(tree := SwapSubtrees(s.tree, l, x)), l, x);
      }
    }
  }

  /** Where an exchange leaves x, and who comes after it. */
  lemma ExchangeTops(q: Ranking, n: int, l: int, x: int)
    requires Ranked(q, n) && 0 <= l < n && 0 <= x < n && q.rank[x] <= q.rank[l]
    ensures var r := SwapRanks(q, l, x);
      && Ranked(r, n) && r.rank[x] == q.rank[l]
      && (q.rank[l] + 1 < n ==> r.order[q.rank[l] + 1] == q.order[q.rank[l] + 1])
  {
    assert q.order[q.rank[x]] == x && q.order[q.rank[l]] == l;
  }

  /** x has weight and is the last node of its block. */
  ghost predicate Topped(r: Fgk, x: int) {
    && Ranked(r.list, r.tree.size) && |r.weight| == MAX_NODES && r.tree.Node(x) && r.weight[x] > 0
    && (r.list.rank[x] + 1 < r.tree.size ==> r.weight[r.list.order[r.list.rank[x] + 1]] > r.weight[x])
  }

  /** Promotion leaves x at the top of its block. */
  lemma PromoteTops(s: Fgk, x: int)
    requires s.tree.Shaped() && Ranked(s.list, s.tree.size) && s.tree.Node(x)
    requires |s.weight| == MAX_NODES && Sorted(s.list, s.weight, s.tree.size)
    requires s.weight[x] > 0
    ensures Topped(Promote(s, x), x)
  {
    hide SwapRanks, SwapSubtrees;
    assert s.list.order[s.list.rank[x]] == x;
    ExchangeTops(s.list, s.tree.size, LeaderOf(s, x), x);
  }

  /** While the bottom pair is flipped, only the parent of NYT has rank 1, and it leads its block. */
  lemma FlippedPromotesHigher(s: Fgk, x: int)
    requires Pending(s, true, x)
    ensures LeaderOf(s, x) != x ==> s.list.rank[x] >= 3
  {
    hide Labelled;
    var q := s.list;
    var u := Settled(q, true);
    NytFamily(s, true, x);
    assert q.order[q.rank[x]] == x && u.order[u.rank[x]] == x;
    SiblingShares(s.tree, s.weight, x, u.order[0]);
    assert q.order[1] == u.order[2] && q.order[2] == u.order[1];
  }

  /** If y, which stands for c, is below p, then c is below p once l and x have exchanged ranks. */
  lemma ExchangedRanks(u: Ranking, l: int, x: int, c: int, p: int)
    requires |u.rank| == MAX_NODES && 0 <= l < MAX_NODES && 0 <= x < MAX_NODES && 0 <= c < MAX_NODES
    requires 0 <= p < MAX_NODES
    requires 0 <= u.rank[x] < u.rank[l] < |u.order|
    requires u.rank[Renamed(c, l, x)] < u.rank[p] && (p == l ==> u.rank[c] < u.rank[x])
    requires c == l ==> p != x && p != l
    requires c == x ==> p != x && p != l
    ensures SwapRanks(u, l, x).rank[c] < SwapRanks(u, l, x).rank[p]
  {
  }

  lemma ExchangedChildIsLower(t: Tree, u: Ranking, l: int, x: int, c: int)
    requires Linked(t) && Ranked(u, t.size) && Ascending(t, u) && Apart(t, l, x) && u.rank[x] < u.rank[l]
    requires forall c | t.Node(c) && c != t.root && t.parent[c] == l :: u.rank[c] < u.rank[x]
    requires !LeftSibling(t, l, x) && t.Node(c) && c != SwapSubtrees(t, l, x).root
    ensures t.Node(SwapSubtrees(t, l, x).parent[c])
    ensures SwapRanks(u, l, x).rank[c] < SwapRanks(u, l, x).rank[SwapSubtrees(t, l, x).parent[c]]
  {
    SwappedParent(t, l, x, c);
    var y := Renamed(c, l, x);
    assert y != t.root && u.rank[y] < u.rank[t.parent[y]];
    assert t.parent[l] != l && t.parent[x] != x;
    hide SwapSubtrees, Linked, SwapRanks;
    ExchangedRanks(u, l, x, c, t.parent[y]);
  }

  /** The case where the exchange leaves the tree alone. */
  lemma SiblingsKeepAscending(t: Tree, u: Ranking, l: int, x: int)
    requires Linked(t) && Ranked(u, t.size) && Ascending(t, u) && Apart(t, l, x) && u.rank[x] < u.rank[l]
    requires forall c | t.Node(c) && c != t.root && t.parent[c] == l :: u.rank[c] < u.rank[x]
    requires LeftSibling(t, l, x)
    ensures Ascending(t, SwapRanks(u, l, x))
  {
    var p := t.parent[l];
    assert l != t.root && x != t.root && u.rank[l] < u.rank[p];
    forall c | t.Node(c) && c != t.root
      ensures SwapRanks(u, l, x).rank[c] < SwapRanks(u, l, x).rank[t.parent[c]]
    {
      assert u.rank[c] < u.rank[t.parent[c]];
    }
  }

  /** Exchanging x with an unrelated leader keeps children below parents. */
  lemma ExchangeKeepsAscending(t: Tree, u: Ranking, l: int, x: int)
    requires Linked(t) && Ranked(u, t.size) && Ascending(t, u) && Apart(t, l, x) && u.rank[x] < u.rank[l]
    requires forall c | t.Node(c) && c != t.root && t.parent[c] == l :: u.rank[c] < u.rank[x]
    requires Linked(SwapSubtrees(t, l, x))
    ensures Ascending(SwapSubtrees(t, l, x), SwapRanks(u, l, x))
  {
    hide Ranked, Ascending;
    if LeftSibling(t, l, x) {
      SiblingsKeepAscending(t, u, l, x);
    } else {
      NonSiblingsKeepAscending(t, u, l, x);
    }
  }

  lemma NonSiblingsKeepAscending(t: Tree, u: Ranking, l: int, x: int)
    requires Linked(t) && Ranked(u, t.size) && Ascending(t, u) && Apart(t, l, x) && u.rank[x] < u.rank[l]
    requires forall c | t.Node(c) && c != t.root && t.parent[c] == l :: u.rank[c] < u.rank[x]
    requires Linked(SwapSubtrees(t, l, x)) && !LeftSibling(t, l, x)
    ensures Ascending(SwapSubtrees(t, l, x), SwapRanks(u, l, x))
  {
    var r, v := SwapSubtrees(t, l, x), SwapRanks(u, l, x);
    hide Linked, Ranked, Apart, LeftSibling, SwapSubtrees, SwapRanks;
    forall c | r.Node(c) && c != r.root ensures v.rank[c] < v.rank[r.parent[c]] {
      hide Ascending;
      ExchangedChildIsLower(t, u, l, x, c);
    }
  }

  /** At each rank hangs a node from where one hung before the exchange. */
  lemma ExchangedParentAt(t: Tree, u: Ranking, l: int, x: int, i: int)
    requires t.Shaped() && Ranked(u, t.size) && Apart(t, l, x) && 0 <= i < t.size
    requires Ranked(SwapRanks(u, l, x), t.size)
    ensures SwapSubtrees(t, l, x).parent[SwapRanks(u, l, x).order[i]] == t.parent[u.order[i]]
  {
    assert u.order[u.rank[x]] == x && u.order[u.rank[l]] == l;
    assert u.rank[u.order[i]] == i;
  }

  /** Pairs stay pairs if at each rank hangs a node from where one hung before. */
  lemma PairsFollow(t: Tree, u: Ranking, r: Tree, v: Ranking)
    requires Linked(t) && Ranked(u, t.size) && Linked(r) && Ranked(v, r.size) && r.size == t.size
    requires forall i {:trigger v.order[i]} | 0 <= i < t.size :: r.parent[v.order[i]] == t.parent[u.order[i]]
    requires t.size > 2 && v.order[2] == u.order[2] && Bottom(t, u) && Paired(t, u)
    ensures Bottom(r, v) && Paired(r, v)
  {
    hide Linked;
  }

  lemma ExchangeKeepsPairs(t: Tree, u: Ranking, l: int, x: int)
    requires Linked(t) && Ranked(u, t.size) && Apart(t, l, x) && Bottom(t, u) && Paired(t, u)
    requires 0 < u.rank[x] < u.rank[l]
    requires t.size > 2 && u.order[2] != l && u.order[2] != x
    requires Linked(SwapSubtrees(t, l, x)) && Ranked(SwapRanks(u, l, x), t.size)
    ensures Bottom(SwapSubtrees(t, l, x), SwapRanks(u, l, x)) && Paired(SwapSubtrees(t, l, x), SwapRanks(u, l, x))
  {
    assert u.order[u.rank[x]] == x && u.order[u.rank[l]] == l;
    hide Linked, Bottom, Paired, SwapSubtrees, Apart;
    var r, v := SwapSubtrees(t, l, x), SwapRanks(u, l, x);
    assert v.order[2] == u.order[2];
    forall i | 0 <= i < t.size ensures r.parent[v.order[i]] == t.parent[u.order[i]] {
      ExchangedParentAt(t, u, l, x, i);
    }
    PairsFollow(t, u, r, v);
  }

  /** Unless the pair is flipped, the parent of NYT is never the node to promote. */
  lemma BottomParentWaits(s: Fgk, x: int)
    requires Pending(s, false, x) && s.tree.size > 2
    ensures x != s.list.order[2]
  {
    hide Labelled;
    NytFamily(s, false, x);
    SiblingShares(s.tree, s.weight, x, s.list.order[0]);
    assert s.weight[s.list.order[1]] <= s.weight[s.list.order[2]];
  }

  /** Whether the bottom pair is flipped after x has been promoted. */
  ghost predicate FlippedAfter(s: Fgk, flipped: bool, x: int)
    requires Weighted(s, x) && s.tree.Node(x)
  {
    flipped || (LeaderOf(s, x) != x && UnderLeader(s, x))
  }

  /** Exchanging the two nodes above NYT is undone by settling. */
  lemma FlipSettles(q: Ranking, n: int, l: int, x: int)
    requires n > 2 && Ranked(q, n) && 0 <= l < n && 0 <= x < n && q.order[1] == x && q.order[2] == l
    ensures Ranked(SwapRanks(q, l, x), n) && Settled(SwapRanks(q, l, x), true) == q
  {
    var r := SwapRanks(q, l, x);
    assert Ranked(r, n);
    assert Settled(r, true).order == q.order && Settled(r, true).rank == q.rank;
  }

  lemma FlippingLeader(s: Fgk, flipped: bool, x: int)
    requires Pending(s, flipped, x) && LeaderOf(s, x) != x && UnderLeader(s, x)
    ensures s.tree.size > 2 && !flipped && s.list.rank[x] == 1
    ensures var q := SwapRanks(s.list, LeaderOf(s, x), x);
      Ranked(q, s.tree.size) && Settled(q, true) == s.list == Settled(s.list, flipped)
  {
    OnlyChildWeighsAsParent(s, flipped, x);
    FlipSettles(s.list, s.tree.size, LeaderOf(s, x), x);
  }

  lemma SwapRanksKeepsRanked(q: Ranking, n: int, l: int, x: int)
    requires Ranked(q, n) && 0 <= l < n && 0 <= x < n
    ensures Ranked(SwapRanks(q, l, x), n)
  {
    assert q.order[q.rank[x]] == x && q.order[q.rank[l]] == l;
  }

  lemma SettledExchange(q: Ranking, n: int, flipped: bool, l: int, x: int)
    requires Ranked(q, n) && 0 <= l < n && 0 <= x < n && (flipped ==> n > 2 && q.rank[l] >= 3 && q.rank[x] >= 3)
    ensures Ranked(SwapRanks(q, l, x), n)
    ensures Settled(SwapRanks(q, l, x), flipped) == SwapRanks(Settled(q, flipped), l, x)
  {
    SwapRanksKeepsRanked(q, n, l, x);
    if flipped { SwapsCommute(q, n, l, x); }
  }

  lemma UpdatesCommute(s: seq<int>, i: nat, a: int, j: nat, b: int, k: nat, c: int, m: nat, d: int)
    requires i < |s| && j < |s| && k < |s| && m < |s| && i != k && i != m && j != k && j != m
    ensures s[i := a][j := b][k := c][m := d] == s[k := c][m := d][i := a][j := b]
  {
  }

  lemma SwapsCommute(q: Ranking, n: int, l: int, x: int)
    requires Ranked(q, n) && n > 2 && 0 <= l < n && 0 <= x < n && q.rank[l] >= 3 && q.rank[x] >= 3
    requires Ranked(SwapRanks(q, l, x), n)
    ensures Settled(SwapRanks(q, l, x), true) == SwapRanks(Settled(q, true), l, x)
  {
    var y, z := q.order[1], q.order[2];
    assert q.rank[y] == 1 && q.rank[z] == 2;
    CommutingSwaps(q, n, l, x, y, z);
  }

  lemma CommutingSwaps(q: Ranking, n: int, l: int, x: int, y: int, z: int)
    requires |q.order| == n && |q.rank| == MAX_NODES && 2 < n <= MAX_NODES
    requires 0 <= l < n && 0 <= x < n && 0 <= y < n && 0 <= z < n
    requires 3 <= q.rank[l] < n && 3 <= q.rank[x] < n && q.rank[y] == 1 && q.rank[z] == 2
    ensures SwapRanks(SwapRanks(q, l, x), y, z) == SwapRanks(SwapRanks(q, y, z), l, x)
  {
    UpdatesCommute(q.order, q.rank[l], x, q.rank[x], l, 1, z, 2, y);
    UpdatesCommute(q.rank, l, q.rank[x], x, q.rank[l], y, 2, z, 1);
  }

  lemma SettledLower(q: Ranking, n: int, flipped: bool, c: int, x: int)
    requires Ranked(q, n) && 0 <= c < n && 0 <= x < n && (flipped ==> n > 2 && q.rank[x] >= 3)
    requires q.rank[c] < q.rank[x]
    ensures Settled(q, flipped).rank[c] < Settled(q, flipped).rank[x]
  {
    assert q.order[q.rank[x]] == x && q.order[q.rank[c]] == c;
  }

  /** The exchange of x with an unrelated leader, seen in the settled order. */
  lemma ExchangeKeepsLaid(t: Tree, u: Ranking, l: int, x: int)
    requires Linked(t) && Ranked(u, t.size) && Laid(t, u) && Apart(t, l, x) && 0 < u.rank[x] < u.rank[l]
    requires t.size > 2 && u.order[2] != l && u.order[2] != x
    requires forall c | t.Node(c) && c != t.root && t.parent[c] == l :: u.rank[c] < u.rank[x]
    requires Linked(SwapSubtrees(t, l, x)) && Ranked(SwapRanks(u, l, x), t.size)
    ensures Laid(SwapSubtrees(t, l, x), SwapRanks(u, l, x))
  {
    ExchangeKeepsAscending(t, u, l, x);
    ExchangeKeepsPairs(t, u, l, x);
  }

  /** What makes the exchange of x with an unrelated leader harmless. */
  lemma ExchangeIsSafe(s: Fgk, flipped: bool, x: int)
    requires Pending(s, flipped, x) && LeaderOf(s, x) != x && !UnderLeader(s, x)
    ensures s.tree.size > 2 && Ranked(s.list, s.tree.size) && Apart(s.tree, LeaderOf(s, x), x)
    ensures var t, u, l := s.tree, Settled(s.list, flipped), LeaderOf(s, x);
      && 0 < u.rank[x] < u.rank[l] && u.order[2] != l && u.order[2] != x
      && (flipped ==> s.list.rank[x] >= 3)
      && s.list.rank[x] < s.list.rank[l]
      && (forall c | t.Node(c) && c != t.root && t.parent[c] == l :: u.rank[c] < u.rank[x])
  {
    hide Labelled, Sorted, Summed, Laid, LeaderOf, Linked;
    var t, q, l := s.tree, s.list, LeaderOf(s, x);
    assert q.order[q.rank[x]] == x;
    LeaderRanks(s, x);
    ApartFromLeader(s, flipped, x);
    LeaderIsNotBottom(s, flipped, x);
    if flipped { FlippedPromotesHigher(s, x); } else { BottomParentWaits(s, x); }
    forall c | t.Node(c) && c != t.root && t.parent[c] == l
      ensures Settled(q, flipped).rank[c] < Settled(q, flipped).rank[x]
    {
      LeaderChildrenAreLower(s, flipped, x, c);
      SettledLower(q, t.size, flipped, c, x);
    }
    SettledLower(q, t.size, flipped, x, l);
  }

  /** a is the n-th node above b. */
  ghost predicate Ancestor(t: Tree, a: int, b: int, n: nat)
    requires t.Shaped()
    decreases n
  {
    if n == 0 then a == b else t.Node(b) && b != t.root && Ancestor(t, a, t.parent[b], n - 1)
  }

  /** Neither node is above the other. */
  ghost predicate Unrelated(t: Tree, a: int, b: int)
    requires t.Shaped()
  {
    forall n: nat | n > 0 :: !Ancestor(t, a, b, n) && !Ancestor(t, b, a, n)
  }

  lemma {:induction false} AncestorIsHigher(t: Tree, u: Ranking, a: int, b: int, n: nat)
    requires Linked(t) && |u.rank| == MAX_NODES && Ascending(t, u) && n > 0 && Ancestor(t, a, b, n)
    ensures t.Node(a) && t.Node(b) && u.rank[b] < u.rank[a]
    decreases n
  {
    assert t.Node(t.parent[b]) && u.rank[b] < u.rank[t.parent[b]];
    if n > 1 { AncestorIsHigher(t, u, a, t.parent[b], n - 1); }
  }

  /** The child of an ancestor a of b that lies on the way to b */
  lemma {:induction false} AncestorsChild(t: Tree, a: int, b: int, n: nat) returns (c: int)
    requires t.Shaped() && n > 0 && Ancestor(t, a, b, n)
    ensures t.Node(c) && c != t.root && t.parent[c] == a && Ancestor(t, c, b, n - 1)
    decreases n
  {
    if n == 1 { c := b; } else { c := AncestorsChild(t, a, t.parent[b], n - 1); }
  }

  /** swap never gets a node and one of its ancestors. */
  lemma LeaderIsUnrelated(s: Fgk, flipped: bool, x: int)
    requires Pending(s, flipped, x) && LeaderOf(s, x) != x && !UnderLeader(s, x)
    ensures s.tree.Shaped() && Unrelated(s.tree, LeaderOf(s, x), x)
  {
    hide Labelled, Sorted, Summed, LeaderOf, Linked, Ascending, Settled, Bottom, Paired, UnderLeader, Apart;
    ExchangeIsSafe(s, flipped, x);
    AreUnrelated(s.tree, Settled(s.list, flipped), LeaderOf(s, x), x);
  }

  /** A node is not above x if it is apart from x and its children rank lower. */
  lemma AreUnrelated(t: Tree, u: Ranking, l: int, x: int)
    requires Linked(t) && |u.rank| == MAX_NODES && Ascending(t, u) && Apart(t, l, x) && u.rank[x] < u.rank[l]
    requires forall c | t.Node(c) && c != t.root && t.parent[c] == l :: u.rank[c] < u.rank[x]
    ensures Unrelated(t, l, x)
  {
    hide Ascending;
    forall n: nat | n > 0 ensures !Ancestor(t, l, x, n) && !Ancestor(t, x, l, n) {
      if Ancestor(t, x, l, n) {
        AncestorIsHigher(t, u, x, l, n);
      } else if Ancestor(t, l, x, n) {
        var c := AncestorsChild(t, l, x, n);
        if n > 1 { AncestorIsHigher(t, u, c, x, n - 1); }
      }
    }
  }

  lemma FlipKeepsInvariant(s: Fgk, flipped: bool, x: int)
    requires Pending(s, flipped, x) && LeaderOf(s, x) != x && UnderLeader(s, x)
    ensures Invariant(Promote(s, x), true, x) && SameBottom(s, Promote(s, x))
  {
    PromoteKeepsTree(s, x);
    OnlyChildWeighsAsParent(s, flipped, x);
    FlippingLeader(s, flipped, x);
  }

  lemma ExchangeKeepsInvariant(s: Fgk, flipped: bool, x: int)
    requires Pending(s, flipped, x) && LeaderOf(s, x) != x && !UnderLeader(s, x)
    ensures Invariant(Promote(s, x), flipped, x) && SameBottom(s, Promote(s, x))
  {
    ExchangeIsSafe(s, flipped, x);
    PromoteKeepsTree(s, x);
    SettledExchange(s.list, s.tree.size, flipped, LeaderOf(s, x), x);
    ExchangeKeepsLaid(s.tree, Settled(s.list, flipped), LeaderOf(s, x), x);
  }

  /** Promotion keeps the invariant, up to the flipped pair. */
  lemma PromoteKeepsInvariant(s: Fgk, flipped: bool, x: int)
    requires Pending(s, flipped, x)
    ensures Invariant(Promote(s, x), FlippedAfter(s, flipped, x), x)
    ensures SameBottom(s, Promote(s, x))
  {
    if LeaderOf(s, x) != x {
      if UnderLeader(s, x) {
        FlipKeepsInvariant(s, flipped, x);
      } else {
        ExchangeKeepsInvariant(s, flipped, x);
      }
    }
  }

  /** An unrelated leader is not the parent of NYT. */
  lemma LeaderIsNotBottom(s: Fgk, flipped: bool, x: int)
    requires Pending(s, flipped, x) && LeaderOf(s, x) != x && !UnderLeader(s, x)
    ensures s.tree.size > 2 && LeaderOf(s, x) != Settled(s.list, flipped).order[2]
  {
    LeaderRanks(s, x);
    TwoAreNotAll(s, flipped, x);
    if flipped {
      hide Linked, Labelled, Sorted, Summed, Laid, LeaderOf;
      FlippedPromotesHigher(s, x);
    } else {
      NytFamily(s, flipped, x);
      hide Linked, Labelled, Sorted, Summed, Laid, LeaderOf;
      assert s.list.order[s.list.rank[x]] == x;
    }
  }

  /** A tree in which some node is not its block's leader has more than two nodes. */
  lemma TwoAreNotAll(s: Fgk, flipped: bool, x: int)
    requires Pending(s, flipped, x) && LeaderOf(s, x) != x
    ensures s.tree.size > 2
  {
    hide Linked, Labelled, Sorted, Summed, Ascending, Paired, LeaderOf, Settled;
    LeaderRanks(s, x);
    assert s.list.order[s.list.rank[x]] == x;
  }

  lemma BumpKeepsSums(t: Tree, weight: seq<int>, x: int)
    requires Linked(t) && |weight| == MAX_NODES && Summed(t, weight, x) && t.Node(x) && t.parent[x] != x
    ensures Summed(t, weight[x := weight[x] + 1], t.parent[x])
  {
    var w := weight[x := weight[x] + 1];
    forall p | t.Node(p) && t.Internal(p)
      ensures w[p] + (if p == t.parent[x] then 1 else 0) == w[t.left[p]] + w[t.right[p]]
    {
      assert t.parent[t.left[p]] == p && t.parent[t.right[p]] == p;
      if p == t.parent[x] {
        assert x != t.root && t.IsChild(x, p);
      }
    }
  }

  lemma BumpKeepsSorted(q: Ranking, weight: seq<int>, n: int, x: int)
    requires n > 0 && Ranked(q, n) && Sorted(q, weight, n) && 0 <= x < n && weight[x] > 0
    requires q.rank[x] + 1 < n ==> weight[q.order[q.rank[x] + 1]] > weight[x]
    ensures Sorted(q, weight[x := weight[x] + 1], n)
  {
    assert q.order[q.rank[x]] == x;
    forall i | 0 <= i < n && q.order[i] == x ensures i == q.rank[x] {}
  }

  /** Raising x's weight passes the missing unit on to its parent. */
  lemma BumpKeepsTree(r: Fgk, x: int)
    requires Weighted(r, x) && Topped(r, x) && r.tree.parent[x] != x
    ensures Weighted(Bump(r, x), r.tree.parent[x])
  {
    BumpKeepsSums(r.tree, r.weight, x);
    BumpKeepsSorted(r.list, r.weight, r.tree.size, x);
  }

  /** One level of an increment: x is promoted, gains a unit, and its parent is next. */
  ghost function Raise(s: Fgk, x: int): (r: Fgk)
    requires s.tree.Shaped() && Ranked(s.list, s.tree.size) && |s.weight| == MAX_NODES && s.tree.Node(x)
  {
    Bump(Promote(s, x), x)
  }

  lemma NotOwnParent(r: Fgk, f: bool, d: int, x: int)
    requires Invariant(r, f, d) && r.tree.Node(x)
    ensures r.tree.parent[x] != x
  {
    var u := Settled(r.list, f);
    assert x != r.tree.root ==> u.rank[x] < u.rank[r.tree.parent[x]];
  }

  lemma BumpKeepsInvariant(r: Fgk, f: bool, x: int)
    requires Invariant(r, f, x) && Topped(r, x)
    ensures Invariant(Bump(r, x), f, r.tree.parent[x])
  {
    hide Linked, Labelled, Sorted, Summed, Laid;
    NotOwnParent(r, f, x, x);
    BumpKeepsTree(r, x);
  }

  lemma PromotedIsPositive(s: Fgk, flipped: bool, x: int)
    requires Pending(s, flipped, x)
    ensures s.weight[x] > 0
  {
    hide Laid, Linked, Labelled, Summed, Settled;
    assert s.list.order[s.list.rank[x]] == x;
  }

  /** A promoted node is ready to be raised. */
  lemma PromoteStep(s: Fgk, flipped: bool, x: int)
    requires Pending(s, flipped, x)
    ensures Invariant(Promote(s, x), FlippedAfter(s, flipped, x), x) && Topped(Promote(s, x), x)
    ensures SameBottom(s, Promote(s, x))
  {
    hide Laid, Linked, Labelled, Summed, Ranked, Sorted, Promote, LeaderOf, Settled, FlippedAfter, Topped;
    PromotedIsPositive(s, flipped, x);
    PromoteKeepsInvariant(s, flipped, x);
    PromoteTops(s, x);
  }

  lemma RaiseKeepsInvariant(s: Fgk, flipped: bool, x: int)
    requires Pending(s, flipped, x)
    ensures Invariant(Raise(s, x), FlippedAfter(s, flipped, x), Raise(s, x).tree.parent[x])
  {
    hide Laid, Linked, Labelled, Sorted, Summed, Promote, LeaderOf, UnderLeader, Settled, FlippedAfter;
    PromoteStep(s, flipped, x);
    BumpKeepsInvariant(Promote(s, x), FlippedAfter(s, flipped, x), x);
  }

  /** The k lowest nodes of rankings u and v are the same and hang where they hung. */
  ghost predicate Frozen(t: Tree, u: Ranking, r: Tree, v: Ranking, k: int) {
    && |t.parent| == |r.parent| == MAX_NODES && k <= |u.order| && k <= |v.order|
    && forall i {:trigger u.order[i]} {:trigger v.order[i]} | 0 <= i < k ::
         v.order[i] == u.order[i] && 0 <= u.order[i] < MAX_NODES && r.parent[u.order[i]] == t.parent[u.order[i]]
  }

  /** Only x and internal nodes change weight, and no label moves. */
  ghost predicate SameLeaves(s: Fgk, r: Fgk, x: int) {
    && s.tree.Shaped() && r.tree.Shaped() && |s.weight| == |r.weight| == MAX_NODES
    && r.tree.size == s.tree.size && r.tree.symbol == s.tree.symbol && r.loc == s.loc
    && (forall c | s.tree.Node(c) && !s.tree.Internal(c) ::
          r.weight[c] == s.weight[c] + if c == x then 1 else 0)
  }

  lemma ExchangedFreezes(s: Fgk, flipped: bool, x: int)
    requires Pending(s, flipped, x) && LeaderOf(s, x) != x && !UnderLeader(s, x)
    ensures Ranked(s.list, s.tree.size) && s.tree.size > 2
    ensures var r, u := Promote(s, x), Settled(s.list, flipped);
      && Ranked(r.list, s.tree.size)
      && u.rank[x] <= Settled(r.list, flipped).rank[x] < s.tree.size
      && Frozen(s.tree, u, r.tree, Settled(r.list, flipped), u.rank[x])
  {
    hide Linked, Labelled, Sorted, Summed, Laid, Frozen, Settled, SwapRanks, SwapSubtrees;
    ExchangeIsSafe(s, flipped, x);
    SettledExchange(s.list, s.tree.size, flipped, LeaderOf(s, x), x);
    ExchangeFreezes(s.tree, Settled(s.list, flipped), LeaderOf(s, x), x);
  }

  lemma FrozenSelf(t: Tree, u: Ranking, n: int, k: int)
    requires t.Shaped() && Ranked(u, n) && k <= n
    ensures Frozen(t, u, t, u, k)
  {
  }

  lemma PromoteFreezes(s: Fgk, flipped: bool, x: int)
    requires Pending(s, flipped, x)
    ensures Ranked(s.list, s.tree.size) && Ranked(Promote(s, x).list, s.tree.size)
    ensures FlippedAfter(s, flipped, x) ==> s.tree.size > 2
    ensures var r, f, u := Promote(s, x), FlippedAfter(s, flipped, x), Settled(s.list, flipped);
      && u.rank[x] <= Settled(r.list, f).rank[x] < s.tree.size
      && Frozen(s.tree, u, r.tree, Settled(r.list, f), u.rank[x])
  {
    hide Linked, Labelled, Sorted, Summed, Laid, SwapRanks, SwapSubtrees, Frozen, Settled;
    if LeaderOf(s, x) != x && !UnderLeader(s, x) {
      ExchangedFreezes(s, flipped, x);
    } else {
      SettledRank(s.list, s.tree.size, flipped, x);
      FrozenSelf(s.tree, Settled(s.list, flipped), s.tree.size, Settled(s.list, flipped).rank[x]);
      if LeaderOf(s, x) != x { FlippingLeader(s, flipped, x); }
    }
  }

  lemma SettledRank(q: Ranking, n: int, flipped: bool, x: int)
    requires Ranked(q, n) && 0 <= x < n && (flipped ==> n > 2)
    ensures 0 <= Settled(q, flipped).rank[x] < n && Ranked(Settled(q, flipped), n)
  {
  }

  lemma RaiseKeepsLeaves(s: Fgk, x: int)
    requires s.tree.Shaped() && Ranked(s.list, s.tree.size) && |s.weight| == MAX_NODES && s.tree.Node(x)
    ensures SameLeaves(s, Raise(s, x), x)
    ensures Raise(s, x).tree.Shaped() && Raise(s, x).tree.size == s.tree.size
  {
    hide SwapRanks, SwapSubtrees;
  }

  lemma RaiseFreezes(s: Fgk, flipped: bool, x: int)
    requires Pending(s, flipped, x)
    ensures SameLeaves(s, Raise(s, x), x)
    ensures Raise(s, x).tree.Shaped() && Raise(s, x).tree.size == s.tree.size
    ensures Ranked(s.list, s.tree.size) && Ranked(Raise(s, x).list, s.tree.size)
    ensures FlippedAfter(s, flipped, x) ==> s.tree.size > 2
    ensures var r, f, u := Raise(s, x), FlippedAfter(s, flipped, x), Settled(s.list, flipped);
      && u.rank[x] <= Settled(r.list, f).rank[x] < s.tree.size
      && Frozen(s.tree, u, r.tree, Settled(r.list, f), u.rank[x])
  {
    hide Linked, Labelled, Sorted, Summed, Laid, Settled, Promote, SameLeaves, LeaderOf, UnderLeader, Frozen;
    RaiseKeepsLeaves(s, x);
    PromoteKeepsInvariant(s, flipped, x);
    PromoteFreezes(s, flipped, x);
  }

  lemma ExchangeFreezes(t: Tree, u: Ranking, l: int, x: int)
    requires t.Shaped() && Ranked(u, t.size) && Apart(t, l, x) && u.rank[x] < u.rank[l]
    ensures SwapRanks(u, l, x).rank[x] == u.rank[l]
    ensures Frozen(t, u, SwapSubtrees(t, l, x), SwapRanks(u, l, x), u.rank[x])
  {
    forall i | 0 <= i < u.rank[x] ensures u.order[i] != x && u.order[i] != l {}
  }

  /** The parent of a raised node is the next node to raise, and it ranks higher. */
  lemma RaisePassesOn(s: Fgk, flipped: bool, x: int)
    requires Pending(s, flipped, x)
    ensures Raise(s, x).tree.Shaped() && Raise(s, x).tree.size == s.tree.size
    ensures Ranked(Raise(s, x).list, s.tree.size) && (FlippedAfter(s, flipped, x) ==> s.tree.size > 2)
    ensures var a, f := Raise(s, x), FlippedAfter(s, flipped, x); var p := a.tree.parent[x];
      && Invariant(a, f, p)
      && (p == NIL ==> f == flipped)
      && (p != NIL ==>
            && a.tree.Node(p) && a.tree.Internal(p) && Pending(a, f, p)
            && Settled(a.list, f).rank[x] < Settled(a.list, f).rank[p] < s.tree.size)
  {
    hide Linked, Labelled, Sorted, Summed, Laid, Raise, LeaderOf, Frozen, SameLeaves, Settled;
    RaiseKeepsInvariant(s, flipped, x);
    RaiseFreezes(s, flipped, x);
    if Raise(s, x).tree.parent[x] == NIL {
      RootIsNotFlipped(s, flipped, x);
    } else {
      ParentIsHigher(Raise(s, x), FlippedAfter(s, flipped, x), x);
      FlippedRank(s, flipped, x);
    }
  }

  lemma ParentIsHigher(a: Fgk, f: bool, x: int)
    requires a.tree.Shaped() && a.tree.Node(x) && a.tree.parent[x] != NIL && Invariant(a, f, a.tree.parent[x])
    ensures a.tree.Node(a.tree.parent[x]) && a.tree.Internal(a.tree.parent[x])
    ensures Ranked(a.list, a.tree.size) && (f ==> a.tree.size > 2)
    ensures Settled(a.list, f).rank[x] < Settled(a.list, f).rank[a.tree.parent[x]] < a.tree.size
    ensures a.tree.parent[x] != a.list.order[0]
  {
    hide Labelled, Sorted, Summed, Bottom, Paired;
    assert x != a.tree.root;
    NytIsLeaf(a);
  }

  lemma NytIsLeaf(s: Fgk)
    requires s.tree.Shaped() && Ranked(s.list, s.tree.size) && Labelled(s.tree, s.loc, s.list.order[0])
    ensures !s.tree.Internal(s.list.order[0])
  {
    assert s.loc[NYT] == s.list.order[0];
  }

  /** A node that flips the bottom pair is not the root. */
  lemma RootIsNotFlipped(s: Fgk, flipped: bool, x: int)
    requires Pending(s, flipped, x) && Raise(s, x).tree.Shaped() && Raise(s, x).tree.parent[x] == NIL
    ensures FlippedAfter(s, flipped, x) == flipped
  {
    hide Linked, Labelled, Sorted, Summed, Laid, SwapRanks, SwapSubtrees;
  }

  /** Where the node that flips the bottom pair settles. */
  lemma FlippedRank(s: Fgk, flipped: bool, x: int)
    requires Pending(s, flipped, x)
    ensures FlippedAfter(s, flipped, x) && !flipped ==>
      s.tree.size > 2 && Ranked(Raise(s, x).list, s.tree.size) && Settled(Raise(s, x).list, true).rank[x] == 1
  {
    hide Linked, Labelled, Sorted, Summed, Laid, SwapRanks, SwapSubtrees, Settled;
    if FlippedAfter(s, flipped, x) && !flipped {
      FlippingLeader(s, flipped, x);
    }
  }

  /** x ranks next above its own parent */
  predicate JustAbove(s: Fgk, x: int)
    requires s.tree.Shaped() && Ranked(s.list, s.tree.size) && s.tree.Node(x)
  {
    s.list.rank[x] > 0 && s.list.order[s.list.rank[x] - 1] == s.tree.parent[x]
  }

  /** The last step of an increment: x changes places with its parent when they are adjacent in
      the wrong order. */
  ghost function Restore(s: Fgk, x: int): (r: Fgk)
    requires s.tree.Shaped() && Ranked(s.list, s.tree.size) && s.tree.Node(x)
  {
    if JustAbove(s, x)
    then s.(list := SwapRanks(s.list, x, s.tree.parent[x]))
    else s
  }

  /** Restore undoes the flip that promoting NYT's sibling x caused. */
  lemma RestoreUnflips(b: Fgk, x: int)
    requires Invariant(b, true, NIL) && b.tree.Node(x) && Settled(b.list, true).order[1] == x
    ensures Restore(b, x) == b.(list := Settled(b.list, true))
    ensures b.tree.Node(b.tree.parent[x]) && b.weight[b.tree.parent[x]] == b.weight[x] > 0
    ensures Invariant(Restore(b, x), false, NIL)
  {
    var t, q, u := b.tree, b.list, Settled(b.list, true);
    var p := t.parent[x];
    assert p == u.order[2] == q.order[1] && q.order[2] == x && q.rank[x] == 2 && q.rank[p] == 1;
    var v := SwapRanks(q, x, p);
    assert v.order == u.order && v.rank == u.rank;
    assert t.IsChild(u.order[0], p) && t.IsChild(x, p);
    assert b.weight[p] == b.weight[t.left[p]] + b.weight[t.right[p]];
    assert u.order[0] != x;
    assert b.weight[u.order[0]] == 0;
    SwapRanksKeepsSorted(q, b.weight, t.size, x, p);
  }

  /** Above the bottom pair, Restore finds nothing to do. */
  lemma RestoreKeeps(b: Fgk, f: bool, x: int)
    requires Invariant(b, f, NIL) && b.tree.Node(x)
    requires f ==> Settled(b.list, f).rank[x] >= 2
    ensures Restore(b, x) == b && !JustAbove(b, x)
  {
    hide Labelled, Sorted, Summed, Bottom, Paired;
    var t, q, u := b.tree, b.list, Settled(b.list, f);
    assert q.order[q.rank[x]] == x;
    if x != t.root {
      assert u.rank[x] < u.rank[t.parent[x]];
      ActualLower(q, t.size, f, x, t.parent[x]);
    }
  }

  /** What incrementing x does: the invariant is whole again, nothing below x has moved, and of
      the leaves only x can have gained a unit. */
  ghost predicate Incremented(s: Fgk, r: Fgk, flipped: bool, x: int) {
    && s.tree.Shaped() && s.tree.Node(x) && |s.list.rank| == MAX_NODES
    && Ranked(s.list, s.tree.size) && (flipped ==> s.tree.size > 2)
    && Invariant(r, flipped, NIL) && r.tree.size == s.tree.size
    && Ranked(r.list, s.tree.size)
    && Frozen(s.tree, Settled(s.list, flipped), r.tree, Settled(r.list, flipped), Settled(s.list, flipped).rank[x])
    && SameLeaves(s, r, x)
  }

  /** How many nodes rank above x in the settled order. */
  ghost function Above(s: Fgk, flipped: bool, x: int): nat
    requires Pending(s, flipped, x)
  {
    s.tree.size - Settled(s.list, flipped).rank[x]
  }

  /** increment: raises x, then its ancestors up to the root, and puts the bottom pair right. */
  ghost function Increment(s: Fgk, flipped: bool, x: int): (r: Fgk)
    requires Pending(s, flipped, x)
    ensures Incremented(s, r, flipped, x)
    decreases Above(s, flipped, x)
  {
    RaiseStep(s, flipped, x);
    var a, f := Raise(s, x), FlippedAfter(s, flipped, x);
    if a.tree.parent[x] == NIL then a
    else
      var b := Increment(a, f, a.tree.parent[x]);
      IncrementShapes(s, flipped, x, a, f, a.tree.parent[x], b);
      IncrementSettles(s, flipped, x, a, f, a.tree.parent[x], b);
      Restore(b, x)
  }

  /** After x has been raised its parent p is next: it ranks higher, and x is where it will
      stay. */
  ghost predicate RaisedTo(s: Fgk, flipped: bool, x: int, a: Fgk, f: bool, p: int) {
    && a.tree.Shaped() && a.tree.size == s.tree.size && a.tree.Node(p) && a.tree.Internal(p)
    && a.tree.Node(x) && a.tree.parent[x] == p && p != NIL && (flipped ==> f)
    && Ranked(s.list, s.tree.size) && Ranked(a.list, a.tree.size) && (f ==> s.tree.size > 2)
    && Settled(s.list, flipped).rank[x] <= Settled(a.list, f).rank[x] < Settled(a.list, f).rank[p] < s.tree.size
    && Frozen(s.tree, Settled(s.list, flipped), a.tree, Settled(a.list, f), Settled(s.list, flipped).rank[x])
    && SameLeaves(s, a, x)
    && (flipped ==> Settled(a.list, f).rank[x] >= 2)
    && (f && !flipped ==> Settled(a.list, f).rank[x] == 1)
  }

  lemma RaiseEnds(s: Fgk, flipped: bool, x: int)
    requires Pending(s, flipped, x) && Raise(s, x).tree.Shaped() && Raise(s, x).tree.parent[x] == NIL
    ensures Incremented(s, Raise(s, x), flipped, x)
  {
    hide Linked, Labelled, Sorted, Summed, Laid, Raise, FlippedAfter, Frozen, SameLeaves, LeaderOf, UnderLeader;
    RaisePassesOn(s, flipped, x);
    RaiseFreezes(s, flipped, x);
  }

  lemma RaiseGoesOn(s: Fgk, flipped: bool, x: int)
    requires Pending(s, flipped, x) && Raise(s, x).tree.Shaped() && Raise(s, x).tree.parent[x] != NIL
    ensures var a, f := Raise(s, x), FlippedAfter(s, flipped, x);
      && Pending(a, f, a.tree.parent[x]) && RaisedTo(s, flipped, x, a, f, a.tree.parent[x])
      && Above(a, f, a.tree.parent[x]) < Above(s, flipped, x)
  {
    hide Linked, Ranked, Labelled, Sorted, Summed, Laid, Raise, Frozen, SameLeaves, LeaderOf, UnderLeader, Settled;
    RaisePassesOn(s, flipped, x);
    RaiseFreezes(s, flipped, x);
    FlippedRank(s, flipped, x);
  }

  /** What Increment needs to know about one raise. */
  lemma RaiseStep(s: Fgk, flipped: bool, x: int)
    requires Pending(s, flipped, x)
    ensures Raise(s, x).tree.Shaped() && Raise(s, x).tree.size == s.tree.size
    ensures var a, f := Raise(s, x), FlippedAfter(s, flipped, x);
      if a.tree.parent[x] == NIL then Incremented(s, a, flipped, x)
      else
        && Pending(a, f, a.tree.parent[x]) && RaisedTo(s, flipped, x, a, f, a.tree.parent[x])
        && Above(a, f, a.tree.parent[x]) < Above(s, flipped, x)
  {
    hide Linked, Labelled, Sorted, Summed, Laid, Raise, FlippedAfter, Incremented, RaisedTo, Above, LeaderOf,
      UnderLeader;
    RaiseKeepsLeaves(s, x);
    if Raise(s, x).tree.parent[x] == NIL {
      RaiseEnds(s, flipped, x);
    } else {
      RaiseGoesOn(s, flipped, x);
    }
  }

  /** One level of the recursion. */
  lemma IncrementUnfolds(s: Fgk, flipped: bool, x: int)
    requires Pending(s, flipped, x)
    ensures Raise(s, x).tree.Shaped()
    ensures var a, f := Raise(s, x), FlippedAfter(s, flipped, x);
      if a.tree.parent[x] == NIL then Increment(s, flipped, x) == a
      else
        && Pending(a, f, a.tree.parent[x]) && RaisedTo(s, flipped, x, a, f, a.tree.parent[x])
        && Above(a, f, a.tree.parent[x]) < Above(s, flipped, x)
        && var b := Increment(a, f, a.tree.parent[x]);
        && b.tree.Shaped() && Ranked(b.list, b.tree.size) && b.tree.Node(x)
        && Increment(s, flipped, x) == Restore(b, x)
  {
    hide Linked, Ranked, Labelled, Sorted, Summed, Laid, Raise, FlippedAfter, Incremented, RaisedTo, Above, Restore;
    hide Settled, LeaderOf, UnderLeader;
    RaiseStep(s, flipped, x);
    var a, f := Raise(s, x), FlippedAfter(s, flipped, x);
    if a.tree.parent[x] != NIL {
      IncrementShapes(s, flipped, x, a, f, a.tree.parent[x], Increment(a, f, a.tree.parent[x]));
      IncrementSettles(s, flipped, x, a, f, a.tree.parent[x], Increment(a, f, a.tree.parent[x]));
    }
  }

  lemma FrozenTwice(t: Tree, u: Ranking, t1: Tree, u1: Ranking, t2: Tree, u2: Ranking, k: int, m: int)
    requires Frozen(t, u, t1, u1, k) && Frozen(t1, u1, t2, u2, m) && k <= m
    ensures Frozen(t, u, t2, u2, k)
  {
  }

  /** x itself stays where the raise has put it while its ancestors are incremented. */
  lemma RaisedStays(t: Tree, u: Ranking, r: Tree, v: Ranking, n: int, x: int, k: int)
    requires Ranked(u, n) && Ranked(v, n) && 0 <= x < n && u.rank[x] < k && Frozen(t, u, r, v, k)
    requires |r.parent| == |t.parent| == MAX_NODES
    ensures v.rank[x] == u.rank[x] && r.parent[x] == t.parent[x]
  {
    assert u.order[u.rank[x]] == x;
    assert v.order[u.rank[x]] == x;
  }

  lemma RestoreFreezes(b: Fgk, flipped: bool, f: bool, x: int)
    requires Invariant(b, f, NIL) && b.tree.Node(x) && (flipped ==> f)
    requires flipped ==> Settled(b.list, f).rank[x] >= 2
    requires f && !flipped ==> Settled(b.list, f).rank[x] == 1
    ensures Invariant(Restore(b, x), flipped, NIL)
    ensures Settled(Restore(b, x).list, flipped) == Settled(b.list, f)
    ensures Restore(b, x) == b.(list := Restore(b, x).list)
    ensures JustAbove(b, x) ==> b.tree.Node(b.tree.parent[x]) && b.weight[b.tree.parent[x]] == b.weight[x] > 0
  {
    if f && !flipped {
      assert Settled(b.list, f).order[Settled(b.list, f).rank[x]] == x;
      RestoreUnflips(b, x);
    } else {
      RestoreKeeps(b, f, x);
    }
  }

  lemma IncrementShapes(s: Fgk, flipped: bool, x: int, a: Fgk, f: bool, p: int, b: Fgk)
    requires RaisedTo(s, flipped, x, a, f, p) && Incremented(a, b, f, p)
    requires s.tree.Shaped() && s.tree.Node(x)
    ensures b.tree.Shaped() && Ranked(b.list, b.tree.size) && b.tree.Node(x) && |b.weight| == MAX_NODES
  {
    hide Ranked, Linked, Labelled, Sorted, Summed, Laid, Frozen, SameLeaves, Settled;
  }

  lemma IncrementSettles(s: Fgk, flipped: bool, x: int, a: Fgk, f: bool, p: int, b: Fgk)
    requires s.tree.Shaped() && s.tree.Node(x)
    requires b.tree.Shaped() && Ranked(b.list, b.tree.size) && b.tree.Node(x) && |b.weight| == MAX_NODES
    requires RaisedTo(s, flipped, x, a, f, p) && Incremented(a, b, f, p)
    ensures Incremented(s, Restore(b, x), flipped, x) && b.tree.parent[x] == p
    ensures JustAbove(b, x) ==> b.tree.Node(b.tree.parent[x]) && b.weight[b.tree.parent[x]] == b.weight[x] > 0
  {
    hide Linked, Labelled, Sorted, Summed, Laid, Frozen, SameLeaves, Restore, Settled;
    var u, u1, u2 := Settled(s.list, flipped), Settled(a.list, f), Settled(b.list, f);
    RaisedStays(a.tree, u1, b.tree, u2, s.tree.size, x, u1.rank[p]);
    FrozenTwice(s.tree, u, a.tree, u1, b.tree, u2, u.rank[x], u1.rank[p]);
    IncrementKeepsLeaves(s, a, b, x);
    RestoreFreezes(b, flipped, f, x);
    RelistKeepsLeaves(s, b, Restore(b, x).list, x);
  }

  lemma RelistKeepsLeaves(s: Fgk, b: Fgk, q: Ranking, x: int)
    requires SameLeaves(s, b, x)
    ensures SameLeaves(s, b.(list := q), x)
  {
  }

  lemma IncrementKeepsLeaves(s: Fgk, a: Fgk, b: Fgk, x: int)
    requires SameLeaves(s, a, x) && a.tree.Node(x) && a.tree.Node(a.tree.parent[x])
    requires a.tree.Internal(a.tree.parent[x]) && SameLeaves(a, b, a.tree.parent[x])
    ensures SameLeaves(s, b, x)
  {
  }

  // ---- the first occurrence of a symbol ----

  /** The tree with the NYT leaf z replaced by an inner node whose children are z and a new leaf
      for symbol c. */
  function SplitTree(t: Tree, z: int, c: int): (r: Tree)
    requires t.Shaped() && t.size + 2 <= MAX_NODES && t.Node(z)
  {
    var leaf, inner, p := t.size, t.size + 1, t.parent[z];
    var left := if t.Node(p) && t.left[p] == z then t.left[p := inner] else t.left;
    var right := if t.Node(p) && t.left[p] != z then t.right[p := inner] else t.right;
    Tree(t.size + 2, left[leaf := NIL][inner := z], right[leaf := NIL][inner := leaf],
         t.parent[inner := p][z := inner][leaf := inner],
         t.symbol[inner := INTERNAL][leaf := c], if t.Node(p) then t.root else inner)
  }

  /** The list with the two new nodes just above NYT. */
  ghost function SplitRanking(q: Ranking): (r: Ranking)
    requires Ranked(q, |q.order|) && 0 < |q.order| && |q.order| + 2 <= MAX_NODES
    ensures |r.order| == |q.order| + 2 && |r.rank| == MAX_NODES
    ensures r.order[0] == q.order[0] && r.order[1] == |q.order| && r.order[2] == |q.order| + 1
    ensures forall i | 0 < i < |q.order| :: r.order[i + 2] == q.order[i]
    ensures r.rank[|q.order|] == 1 && r.rank[|q.order| + 1] == 2
    ensures forall x | 0 <= x < |q.order| :: r.rank[x] == if q.rank[x] > 0 then q.rank[x] + 2 else q.rank[x]
  {
    var n := |q.order|;
    Ranking([q.order[0], n, n + 1] + q.order[1..],
            seq(MAX_NODES, x requires 0 <= x < MAX_NODES =>
              if x == n then 1 else if x == n + 1 then 2
              else if x < n && q.rank[x] > 0 then q.rank[x] + 2 else q.rank[x]))
  }

  ghost function Split(s: Fgk, c: int): (r: Fgk)
    requires Valid(s) && 0 <= c < NYT && s.tree.size + 2 <= MAX_NODES
  {
    var n := s.tree.size;
    Fgk(SplitTree(s.tree, s.list.order[0], c), SplitRanking(s.list),
        s.weight[n + 1 := 1][n := 1], s.loc[c := n])
  }

  /** r is t with NYT leaf z split: in the old rows the inner node stands where z stood. */
  ghost predicate SplitOf(t: Tree, z: int, c: int, r: Tree) {
    && t.Shaped() && r.Shaped() && t.Node(z) && r.size == t.size + 2
    && r.left[t.size + 1] == z && r.right[t.size + 1] == t.size
    && r.parent[t.size] == t.size + 1 && r.parent[z] == t.size + 1 && r.parent[t.size + 1] == t.parent[z]
    && r.symbol[t.size] == c && r.symbol[t.size + 1] == INTERNAL && c != INTERNAL
    && r.root == (if z == t.root then t.size + 1 else t.root)
    && (forall x {:trigger r.symbol[x]} | t.Node(x) :: r.symbol[x] == t.symbol[x])
    && (forall x {:trigger r.parent[x]} | t.Node(x) && x != z :: r.parent[x] == t.parent[x])
    && (forall x {:trigger r.left[x]} | t.Node(x) && t.Internal(x) ::
          r.left[x] == if t.left[x] == z then t.size + 1 else t.left[x])
    && (forall x {:trigger r.right[x]} | t.Node(x) && t.Internal(x) ::
          r.right[x] == if t.right[x] == z then t.size + 1 else t.right[x])
  }

  lemma SplitRows(t: Tree, z: int, c: int)
    requires Linked(t) && t.size + 2 <= MAX_NODES && t.Node(z) && !t.Internal(z) && 0 <= c < NYT
    ensures SplitOf(t, z, c, SplitTree(t, z, c))
  {
    var r := SplitTree(t, z, c);
    if z != t.root {
      assert t.IsChild(z, t.parent[z]);
    }
    forall x | t.Node(x) && t.Internal(x)
      ensures r.left[x] == if t.left[x] == z then t.size + 1 else t.left[x]
      ensures r.right[x] == if t.right[x] == z then t.size + 1 else t.right[x]
    {
      assert t.parent[t.left[x]] == x && t.parent[t.right[x]] == x;
    }
  }

  /** v is q with two new nodes just above NYT. */
  ghost predicate Extends(q: Ranking, n: int, v: Ranking) {
    && Ranked(q, n) && Ranked(v, n + 2) && 0 < n
    && v.order[0] == q.order[0] && v.order[1] == n && v.order[2] == n + 1
    && (forall i, j {:trigger v.order[j], q.order[i]} | 0 < i < n && j == i + 2 :: v.order[j] == q.order[i])
    && v.rank[n] == 1 && v.rank[n + 1] == 2
    && (forall x {:trigger v.rank[x]} | 0 <= x < n :: v.rank[x] == if q.rank[x] > 0 then q.rank[x] + 2 else 0)
  }

  lemma SplitExtends(q: Ranking, n: int)
    requires Ranked(q, n) && 0 < n && n + 2 <= MAX_NODES
    ensures Extends(q, n, SplitRanking(q))
  {
    var r := SplitRanking(q);
    forall i | 0 <= i < n + 2
      ensures 0 <= r.order[i] < n + 2 && r.rank[r.order[i]] == i
    {
      if i > 2 { assert r.order[i] == q.order[i - 2]; }
    }
    forall x | 0 <= x < n + 2
      ensures 0 <= r.rank[x] < n + 2 && r.order[r.rank[x]] == x
    {
      if x < n && q.rank[x] > 0 { assert r.order[q.rank[x] + 2] == q.order[q.rank[x]]; }
    }
  }

  lemma SplitUp(t: Tree, z: int, c: int, r: Tree, x: int)
    requires Linked(t) && SplitOf(t, z, c, r) && !t.Internal(z)
    requires r.Node(x) && x != r.root
    ensures r.Node(r.parent[x]) && r.Internal(r.parent[x]) && r.IsChild(x, r.parent[x])
  {
    if x < t.size && x != z {
      assert t.IsChild(x, t.parent[x]);
    } else if x == t.size + 1 {
      assert t.IsChild(z, t.parent[z]);
    }
  }

  lemma SplitDown(t: Tree, z: int, c: int, r: Tree, x: int)
    requires Linked(t) && SplitOf(t, z, c, r) && !t.Internal(z)
    requires r.Node(x) && r.Internal(x)
    ensures r.Node(r.left[x]) && r.Node(r.right[x]) && r.left[x] != r.right[x]
    ensures r.parent[r.left[x]] == x && r.parent[r.right[x]] == x
  {
    if x < t.size {
      assert t.parent[t.left[x]] == x;
    }
  }

  lemma SplitKeepsLinks(t: Tree, z: int, c: int, r: Tree)
    requires Linked(t) && SplitOf(t, z, c, r) && !t.Internal(z)
    ensures Linked(r)
  {
    forall x | r.Node(x) && x != r.root
      ensures r.Node(r.parent[x]) && r.Internal(r.parent[x]) && r.IsChild(x, r.parent[x])
    {
      SplitUp(t, z, c, r, x);
    }
    forall x | r.Node(x) && r.Internal(x)
      ensures && r.Node(r.left[x]) && r.Node(r.right[x]) && r.left[x] != r.right[x]
              && r.parent[r.left[x]] == x && r.parent[r.right[x]] == x
    {
      SplitDown(t, z, c, r, x);
    }
  }

  lemma SplitKeepsSorted(q: Ranking, weight: seq<int>, n: int, v: Ranking)
    requires Extends(q, n, v) && Sorted(q, weight, n)
    ensures Sorted(v, weight[n + 1 := 1][n := 1], n + 2)
  {
    var w := weight[n + 1 := 1][n := 1];
    forall i | 2 < i < n + 2 ensures w[v.order[i]] == weight[q.order[i - 2]] >= 1 {
      assert v.order[i] == q.order[i - 2];
    }
    forall i, j | 0 <= i < j < n + 2 ensures w[v.order[i]] <= w[v.order[j]] {
      if i > 2 { assert weight[q.order[i - 2]] <= weight[q.order[j - 2]]; }
    }
  }

  lemma SplitKeepsSums(t: Tree, weight: seq<int>, z: int, c: int, r: Tree)
    requires Linked(t) && SplitOf(t, z, c, r) && !t.Internal(z) && Linked(r)
    requires |weight| == MAX_NODES && Summed(t, weight, NIL) && weight[z] == 0
    ensures Summed(r, weight[t.size + 1 := 1][t.size := 1], t.parent[z])
  {
    var w := weight[t.size + 1 := 1][t.size := 1];
    forall x | r.Node(x) && r.Internal(x)
      ensures w[x] + (if x == t.parent[z] then 1 else 0) == w[r.left[x]] + w[r.right[x]]
    {
      if x < t.size {
        assert weight[x] == weight[t.left[x]] + weight[t.right[x]];
        if x == t.parent[z] { assert z != t.root && t.IsChild(z, x); }
      }
    }
  }

  lemma SplitKeepsAscending(t: Tree, q: Ranking, z: int, c: int, r: Tree, v: Ranking)
    requires Extends(q, t.size, v) && z == q.order[0]
    requires Linked(t) && Ascending(t, q) && SplitOf(t, z, c, r) && Linked(r)
    ensures Ascending(r, v)
  {
    forall x | r.Node(x) && x != r.root
      ensures v.rank[x] < v.rank[r.parent[x]]
    {
      if x < t.size && x != z {
        assert q.rank[x] < q.rank[t.parent[x]];
      } else if x == t.size + 1 {
        assert q.rank[z] < q.rank[t.parent[z]];
      }
    }
  }

  /** Where the nodes of the old list hang after the split. */
  lemma SplitParents(t: Tree, q: Ranking, z: int, c: int, r: Tree, v: Ranking, i: int)
    requires SplitOf(t, z, c, r) && Extends(q, t.size, v) && z == q.order[0] && 0 < i < t.size
    ensures r.parent[v.order[i + 2]] == t.parent[q.order[i]]
  {
    var j := i + 2;
    assert v.order[j] == q.order[i];
    assert q.rank[q.order[i]] != q.rank[z];
  }

  lemma SplitKeepsPairs(t: Tree, q: Ranking, z: int, c: int, r: Tree, v: Ranking)
    requires Extends(q, t.size, v) && z == q.order[0]
    requires Linked(t) && Paired(t, q) && SplitOf(t, z, c, r) && Linked(r)
    ensures Bottom(r, v) && Paired(r, v)
  {
    forall i, j | 0 <= i < j < r.size && j == i + 1 && i % 2 == 0
      ensures r.parent[v.order[i]] == r.parent[v.order[j]]
    {
      if i >= 2 {
        assert t.parent[q.order[i - 2]] == t.parent[q.order[j - 2]];
        SplitParents(t, q, z, c, r, v, j - 2);
        if i > 2 { SplitParents(t, q, z, c, r, v, i - 2); }
      }
    }
  }

  lemma SplitKeepsLabels(t: Tree, loc: seq<int>, z: int, c: int, r: Tree)
    requires Linked(t) && SplitOf(t, z, c, r) && 0 <= c < NYT
    requires Labelled(t, loc, z) && loc[c] == NIL
    ensures Labelled(r, loc[c := t.size], z)
  {
  }

  lemma SplitKeepsWeighted(s: Fgk, c: int, r: Tree, v: Ranking)
    requires Weighted(s, NIL) && 0 <= c < NYT && s.loc[c] == NIL && s.tree.size + 2 <= MAX_NODES
    requires SplitOf(s.tree, s.list.order[0], c, r) && Extends(s.list, s.tree.size, v)
    ensures var w := s.weight[s.tree.size + 1 := 1][s.tree.size := 1];
      Weighted(Fgk(r, v, w, s.loc[c := s.tree.size]), s.tree.parent[s.list.order[0]])
  {
    hide SplitOf;
    var z := s.list.order[0];
    NytIsLeaf(s);
    SplitKeepsLinks(s.tree, z, c, r);
    SplitKeepsSorted(s.list, s.weight, s.tree.size, v);
    SplitKeepsSums(s.tree, s.weight, z, c, r);
    SplitKeepsLabels(s.tree, s.loc, z, c, r);
    SplitSize(s.tree, z, c, r);
  }

  lemma SplitSize(t: Tree, z: int, c: int, r: Tree)
    requires SplitOf(t, z, c, r)
    ensures r.Shaped() && r.size == t.size + 2
  {
  }

  lemma SplitKeepsLaid(s: Fgk, c: int, r: Tree, v: Ranking)
    requires Valid(s) && SplitOf(s.tree, s.list.order[0], c, r) && Extends(s.list, s.tree.size, v)
    ensures Linked(r) && Ranked(v, r.size) && Laid(r, v)
  {
    NytIsLeaf(s);
    SplitKeepsLinks(s.tree, s.list.order[0], c, r);
    SplitKeepsAscending(s.tree, s.list, s.list.order[0], c, r, v);
    SplitKeepsPairs(s.tree, s.list, s.list.order[0], c, r, v);
  }

  lemma SplitIsSplit(s: Fgk, c: int)
    requires Valid(s) && 0 <= c < NYT && s.tree.size + 2 <= MAX_NODES
    ensures SplitOf(s.tree, s.list.order[0], c, Split(s, c).tree)
    ensures Extends(s.list, s.tree.size, Split(s, c).list)
  {
    NytIsLeaf(s);
    SplitRows(s.tree, s.list.order[0], c);
    SplitExtends(s.list, s.tree.size);
  }

  /** After a split the old parent of NYT is the next node to increment; there is none when the
      tree was NYT alone. */
  lemma SplitKeepsInvariant(s: Fgk, c: int)
    requires Valid(s) && 0 <= c < NYT && s.loc[c] == NIL && s.tree.size + 2 <= MAX_NODES
    ensures Ranked(s.list, s.tree.size)
    ensures var p := s.tree.parent[s.list.order[0]];
      && Invariant(Split(s, c), false, p)
      && (p == NIL || Pending(Split(s, c), false, p))
  {
    hide Sorted, Summed, Labelled, Laid, SplitTree, SplitRanking, SplitOf;
    var r := Split(s, c);
    SplitIsSplit(s, c);
    SplitKeepsWeighted(s, c, r.tree, r.list);
    SplitKeepsLaid(s, c, r.tree, r.list);
    var z := s.list.order[0];
    NytIsLeaf(s);
    assert z != s.tree.root ==> s.tree.Internal(s.tree.parent[z]);
  }

  // ---- runs ----

  /** The byte values that have a leaf. */
  function Seen(loc: seq<int>): (r: set<int>)
    requires |loc| == NYT + 1
  {
    set c | 0 <= c < NYT && loc[c] != NIL
  }

  /** The invariant of every run: a valid tree with one leaf and one inner node for each byte
      value seen. */
  ghost predicate Reachable(s: Fgk) {
    Valid(s) && |s.loc| == NYT + 1 && s.tree.size == 2 * |Seen(s.loc)| + 1
  }

  lemma SeenIsBounded(loc: seq<int>)
    requires |loc| == NYT + 1
    ensures |Seen(loc)| <= 256
    ensures forall c | 0 <= c < NYT && loc[c] == NIL :: |Seen(loc)| < 256
  {
    var all := UpTo(NYT);
    Subset(Seen(loc), all);
    forall c | 0 <= c < NYT && loc[c] == NIL ensures |Seen(loc)| < 256 {
      Subset(Seen(loc) + {c}, all);
    }
  }

  /** No run uses more than 513 of the 768 nodes. */
  lemma ReachableIsSmall(s: Fgk)
    requires Reachable(s)
    ensures s.tree.size <= 513 < MAX_NODES
  {
    SeenIsBounded(s.loc);
  }

  ghost function UpTo(n: nat): (r: set<int>)
    ensures |r| == n && forall c :: c in r <==> 0 <= c < n
  {
    if n == 0 then {} else UpTo(n - 1) + {n - 1}
  }

  lemma Subset(a: set<int>, b: set<int>)
    requires a <= b
    ensures |a| <= |b|
  {
    assert b == a + (b - a);
  }

  /** The tree that knows only the NYT symbol. */
  function Initial(): (r: Fgk) {
    var nils := seq(MAX_NODES, i requires 0 <= i < MAX_NODES => NIL);
    Fgk(Tree(1, nils, nils, nils, nils[0 := NYT], 0),
        Ranking([0], seq(MAX_NODES, i requires 0 <= i < MAX_NODES => 0)),
        seq(MAX_NODES, i requires 0 <= i < MAX_NODES => 0),
        seq(NYT + 1, i requires 0 <= i < NYT + 1 => if i == NYT then 0 else NIL))
  }

  lemma InitialIsReachable()
    ensures Reachable(Initial()) && Seen(Initial().loc) == {}
  {
  }

  /** r has one leaf more than s, of weight 1, for symbol c; the other leaves are the same. */
  ghost predicate NewLeaf(s: Fgk, r: Fgk, c: int) {
    && s.tree.Shaped() && r.tree.Shaped() && |s.weight| == |r.weight| == MAX_NODES && 0 <= c < |s.loc|
    && r.tree.size == s.tree.size + 2 && r.loc == s.loc[c := s.tree.size]
    && r.tree.symbol[s.tree.size] != INTERNAL && r.weight[s.tree.size] == 1
    && forall x | s.tree.Node(x) && s.tree.symbol[x] != INTERNAL ::
         r.tree.symbol[x] != INTERNAL && r.weight[x] == s.weight[x]
  }

  lemma SplitAddsLeaf(s: Fgk, c: int)
    requires Valid(s) && 0 <= c < NYT && s.tree.size + 2 <= MAX_NODES
    ensures NewLeaf(s, Split(s, c), c)
  {
    hide Laid, Summed, Sorted, Linked;
    SplitIsSplit(s, c);
    hide SplitTree, SplitRanking;
  }

  lemma IncrementKeepsNewLeaf(s: Fgk, q: Fgk, r: Fgk, p: int, c: int)
    requires NewLeaf(s, q, c) && SameLeaves(q, r, p) && q.tree.Node(p) && q.tree.symbol[p] == INTERNAL
    ensures NewLeaf(s, r, c)
  {
    assert q.tree.Node(s.tree.size);
    forall x | s.tree.Node(x) && s.tree.symbol[x] != INTERNAL
      ensures r.tree.symbol[x] != INTERNAL && r.weight[x] == s.weight[x]
    {
      assert q.tree.Node(x);
    }
  }

  lemma OldParentIsInternal(s: Fgk, c: int)
    requires Valid(s) && 0 <= c < NYT && s.tree.size + 2 <= MAX_NODES && s.tree.parent[s.list.order[0]] != NIL
    ensures Split(s, c).tree.Shaped() && Split(s, c).tree.Node(s.tree.parent[s.list.order[0]])
    ensures Split(s, c).tree.symbol[s.tree.parent[s.list.order[0]]] == INTERNAL
  {
    hide Laid, Summed, Sorted, Labelled, SplitTree, SplitRanking;
    SplitIsSplit(s, c);
    assert s.list.order[0] != s.tree.root;
  }

  /** The first occurrence of c. */
  ghost function AddNew(s: Fgk, c: Symbol): (r: Fgk)
    requires Reachable(s) && s.loc[c] == NIL
    ensures Reachable(r) && NewLeaf(s, r, c)
  {
    SplitIsReachable(s, c);
    var p := s.tree.parent[s.list.order[0]];
    if p == NIL then Split(s, c)
    else
      AddNewIsReachable(s, c, p, Increment(Split(s, c), false, p));
      Increment(Split(s, c), false, p)
  }

  lemma SplitIsReachable(s: Fgk, c: Symbol)
    requires Reachable(s) && s.loc[c] == NIL
    ensures s.tree.size + 2 <= MAX_NODES && NewLeaf(s, Split(s, c), c)
    ensures var p := s.tree.parent[s.list.order[0]];
      if p == NIL then Reachable(Split(s, c)) else Pending(Split(s, c), false, p)
  {
    hide Weighted, Laid;
    SeenIsBounded(s.loc);
    SplitKeepsInvariant(s, c);
    SplitAddsLeaf(s, c);
    SeenOneMore(s.loc, c, s.tree.size);
  }

  lemma AddNewIsReachable(s: Fgk, c: Symbol, p: int, r: Fgk)
    requires Reachable(s) && s.loc[c] == NIL && s.tree.size + 2 <= MAX_NODES
    requires NewLeaf(s, Split(s, c), c) && p == s.tree.parent[s.list.order[0]] && p != NIL
    requires SameLeaves(Split(s, c), r, p) && Valid(r)
    ensures Reachable(r) && NewLeaf(s, r, c)
  {
    hide Weighted, Laid, SameLeaves, Split;
    OldParentIsInternal(s, c);
    IncrementKeepsNewLeaf(s, Split(s, c), r, p, c);
    SeenOneMore(s.loc, c, s.tree.size);
  }

  /** One more occurrence of a symbol that has a leaf. */
  ghost function AddSeen(s: Fgk, c: Symbol): (r: Fgk)
    requires Reachable(s) && s.loc[c] != NIL
    ensures Reachable(r) && SameLeaves(s, r, s.loc[c])
  {
    LeafIsPending(s, c);
    Increment(s, false, s.loc[c])
  }

  lemma SeenOneMore(loc: seq<int>, c: int, n: int)
    requires |loc| == NYT + 1 && 0 <= c < NYT && n != NIL
    ensures Seen(loc[c := n]) == Seen(loc) + {c}
    ensures loc[c] == NIL ==> c !in Seen(loc)
    ensures loc[c] != NIL ==> Seen(loc) + {c} == Seen(loc)
  {
  }

  /** Huff_addRef: the tree after one more occurrence of c. */
  ghost function AddRef(s: Fgk, c: Symbol): (r: Fgk)
    requires Reachable(s)
    ensures Reachable(r)
  {
    if s.loc[c] == NIL then AddNew(s, c) else AddSeen(s, c)
  }

  lemma LeafIsPending(s: Fgk, c: Symbol)
    requires Valid(s) && s.loc[c] != NIL
    ensures Pending(s, false, s.loc[c]) && !s.tree.Internal(s.loc[c])
  {
    assert s.tree.symbol[s.loc[c]] == c;
    assert s.tree.symbol[s.list.order[0]] == NYT by { assert s.loc[NYT] == s.list.order[0]; }
  }

  function Count(history: seq<Symbol>, c: Symbol): nat {
    if history == [] then 0
    else Count(history[..|history| - 1], c) + if history[|history| - 1] == c then 1 else 0
  }

  /** Each leaf weighs as much as its symbol has occurred, and the symbols without a leaf have
      not occurred. */
  ghost predicate Counted(s: Fgk, history: seq<Symbol>) {
    |s.loc| == NYT + 1 &&
    forall c: Symbol ::
      && (s.loc[c] == NIL || 0 <= s.loc[c] < |s.weight|)
      && Count(history, c) == if s.loc[c] == NIL then 0 else s.weight[s.loc[c]]
  }

  lemma LeafHasOneSymbol(s: Fgk, a: Symbol, b: Symbol)
    requires Valid(s) && s.loc[a] == s.loc[b] != NIL
    ensures a == b
  {
    assert s.tree.symbol[s.loc[a]] == a && s.tree.symbol[s.loc[b]] == b;
  }

  lemma NewLeafCounts(s: Fgk, r: Fgk, c: Symbol, history: seq<Symbol>)
    requires Valid(s) && |s.loc| == NYT + 1 && s.loc[c] == NIL && NewLeaf(s, r, c) && Counted(s, history)
    ensures Counted(r, history + [c])
  {
    var h := history + [c];
    assert h[..|h| - 1] == history;
    forall d: Symbol
      ensures Count(h, d) == if r.loc[d] == NIL then 0 else r.weight[r.loc[d]]
    {
      if s.loc[d] != NIL { assert s.tree.symbol[s.loc[d]] == d; }
    }
  }

  lemma SeenLeafCounts(s: Fgk, r: Fgk, c: Symbol, history: seq<Symbol>)
    requires Valid(s) && s.loc[c] != NIL && SameLeaves(s, r, s.loc[c]) && Counted(s, history)
    ensures Counted(r, history + [c])
  {
    var h := history + [c];
    assert h[..|h| - 1] == history;
    forall d: Symbol
      ensures Count(h, d) == if r.loc[d] == NIL then 0 else r.weight[r.loc[d]]
    {
      if s.loc[d] != NIL {
        assert s.tree.symbol[s.loc[d]] == d;
        if s.loc[c] == s.loc[d] { LeafHasOneSymbol(s, c, d); }
      }
    }
  }

  /** The tree after a whole history of symbols. */
  ghost function Run(history: seq<Symbol>): (r: Fgk)
    ensures Reachable(r)
    ensures Counted(r, history)
  {
    InitialIsReachable();
    if history == [] then Initial()
    else
      var before, c := history[..|history| - 1], history[|history| - 1];
      assert before + [c] == history;
      AddRefCounts(Run(before), c, before);
      AddRef(Run(before), c)
  }

  lemma AddRefCounts(s: Fgk, c: Symbol, history: seq<Symbol>)
    requires Reachable(s) && Counted(s, history)
    ensures Counted(AddRef(s, c), history + [c])
  {
    hide Weighted, Laid, Counted, NewLeaf, SameLeaves;
    if s.loc[c] == NIL {
      NewLeafCounts(s, AddNew(s, c), c, history);
    } else {
      SeenLeafCounts(s, AddSeen(s, c), c, history);
    }
  }
}
