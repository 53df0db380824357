/**
  The two structures by which Shared/huffman.c represents the ranking of an adaptive Huffman
  tree: a doubly linked list in rank order, and one shared cell for every block of equal weight
  that names the block's highest node. Here they are values; HuffmanCoder keeps them in fields.
 */
module HuffmanList {
  import opened HuffmanTree

  /** next and prev link the nodes in rank order. */
  ghost predicate Chained(q: Ranking, n: int, next: seq<int>, prev: seq<int>) {
    && Ranked(q, n) && |next| == |prev| == MAX_NODES
    && (forall x {:trigger next[x]} | 0 <= x < n ::
          next[x] == if q.rank[x] + 1 < n then q.order[q.rank[x] + 1] else NIL)
    && (forall x {:trigger prev[x]} | 0 <= x < n ::
          prev[x] == if q.rank[x] > 0 then q.order[q.rank[x] - 1] else NIL)
  }

  /** l is the last node of its weight */
  ghost predicate Top(s: Fgk, l: int)
    requires Ranked(s.list, s.tree.size) && |s.weight| == MAX_NODES && s.tree.Node(l)
  {
    s.list.rank[l] + 1 < s.tree.size ==> s.weight[s.list.order[s.list.rank[l] + 1]] != s.weight[l]
  }

  /** x is a node that owns a share in a cell: neither NYT nor the node ex, which has none for
      the moment. */
  ghost predicate Member(s: Fgk, x: int, ex: int)
    requires Ranked(s.list, s.tree.size) && 0 < s.tree.size
  {
    s.tree.Node(x) && x != s.list.order[0] && x != ex
  }

  /** The head cell of every member is live and names the top of the member's block; every live
      cell is the head of the node it names. (So the members of a block share one cell, and no
      others do: see SameCell.) */
  ghost predicate Blocks(s: Fgk, head: seq<int>, cells: seq<int>, live: set<int>, ex: int)
    requires Ranked(s.list, s.tree.size) && 0 < s.tree.size && |s.weight| == MAX_NODES
  {
    && |head| == |cells| == MAX_NODES
    && (forall c | c in live :: 0 <= c < MAX_NODES)
    && (forall x {:trigger head[x]} | Member(s, x, ex) ::
          && head[x] in live && Member(s, cells[head[x]], ex)
          && s.weight[cells[head[x]]] == s.weight[x] && Top(s, cells[head[x]]))
    && (forall c {:trigger cells[c]} | c in live :: Member(s, cells[c], ex) && head[cells[c]] == c)
  }

  /** No node of the same weight ranks above a top. */
  lemma TopIsLast(s: Fgk, l: int, y: int)
    requires Ranked(s.list, s.tree.size) && 0 < s.tree.size && Sorted(s.list, s.weight, s.tree.size)
    requires s.tree.Node(l) && s.tree.Node(y) && Top(s, l) && s.weight[y] == s.weight[l]
    ensures s.list.rank[y] <= s.list.rank[l]
  {
    var q, k := s.list, s.list.rank[l] + 1;
    assert q.order[q.rank[l]] == l && q.order[q.rank[y]] == y;
    if k < s.tree.size {
      assert s.weight[q.order[k]] > s.weight[l];
      assert forall j | k <= j < s.tree.size :: s.weight[q.order[j]] > s.weight[l];
    }
  }

  /** The cell of a member names its block's leader. */
  lemma CellNamesLeader(s: Fgk, head: seq<int>, cells: seq<int>, live: set<int>, x: int)
    requires s.tree.Shaped() && Ranked(s.list, s.tree.size) && |s.weight| == MAX_NODES
    requires Sorted(s.list, s.weight, s.tree.size) && Blocks(s, head, cells, live, NIL) && Member(s, x, NIL)
    ensures head[x] in live && cells[head[x]] == LeaderOf(s, x)
  {
    var l, m, q := cells[head[x]], LeaderOf(s, x), s.list;
    LeaderRanks(s, x);
    assert q.order[q.rank[l]] == l && q.order[q.rank[m]] == m && q.order[q.rank[x]] == x;
    TopIsLast(s, l, m);
    TopIsLast(s, m, l);
  }

  /** r differs from s at most in the order of nodes as heavy as x, and x tops its block in r. */
  ghost predicate Promoted(s: Fgk, r: Fgk, x: int) {
    && 0 < s.tree.size && r.tree.size == s.tree.size && r.weight == s.weight && |s.weight| == MAX_NODES
    && Ranked(s.list, s.tree.size) && Ranked(r.list, s.tree.size) && r.list.order[0] == s.list.order[0]
    && Sorted(s.list, s.weight, s.tree.size) && Sorted(r.list, r.weight, s.tree.size)
    && Member(r, x, NIL) && Top(r, x)
    && (forall y {:trigger r.list.rank[y]} | s.tree.Node(y) && s.weight[y] != s.weight[x] :: Top(s, y) == Top(r, y))
  }

  /** The node below x, if any. */
  ghost function Below(r: Fgk, x: int): int
    requires Ranked(r.list, r.tree.size) && r.tree.Node(x)
  {
    if r.list.rank[x] > 0 then r.list.order[r.list.rank[x] - 1] else NIL
  }

  ghost function Beyond(r: Fgk, x: int): int
    requires Ranked(r.list, r.tree.size) && r.tree.Node(x)
  {
    if r.list.rank[x] + 1 < r.tree.size then r.list.order[r.list.rank[x] + 1] else NIL
  }

  /** Tops of other weights stay tops when x gains a unit. */
  lemma BumpKeepsTop(r: Fgk, x: int, l: int)
    requires Ranked(r.list, r.tree.size) && 0 < r.tree.size && Sorted(r.list, r.weight, r.tree.size)
    requires r.tree.Node(x) && r.tree.Node(l) && r.weight[l] != r.weight[x] && Top(r, l)
    ensures Top(Bump(r, x), l)
  {
    assert r.list.order[r.list.rank[l]] == l && r.list.order[r.list.rank[x]] == x;
  }

  /** Two members share a cell exactly if they weigh the same. */
  lemma SameCell(s: Fgk, head: seq<int>, cells: seq<int>, live: set<int>, x: int, y: int)
    requires Ranked(s.list, s.tree.size) && 0 < s.tree.size && Sorted(s.list, s.weight, s.tree.size)
    requires Blocks(s, head, cells, live, NIL) && Member(s, x, NIL) && Member(s, y, NIL)
    ensures 0 <= head[x] < MAX_NODES && head[x] in live
    ensures head[x] == head[y] <==> s.weight[x] == s.weight[y]
  {
    var l, m := cells[head[x]], cells[head[y]];
    if s.weight[x] == s.weight[y] {
      TopIsLast(s, l, m);
      TopIsLast(s, m, l);
      assert s.list.order[s.list.rank[l]] == l && s.list.order[s.list.rank[m]] == m;
    }
  }

  /** The node below x takes over as top of the block when x gains a unit. */
  lemma NextTop(s: Fgk, r: Fgk, x: int)
    requires Promoted(s, r, x) && Below(r, x) != NIL && r.weight[Below(r, x)] == r.weight[x]
    ensures Member(s, Below(r, x), x) && Top(Bump(r, x), Below(r, x))
  {
    var k := Below(r, x);
    assert r.list.order[r.list.rank[x]] == x && r.list.rank[k] == r.list.rank[x] - 1;
    assert s.weight[s.list.order[0]] == 0 && s.weight[x] > 0;
  }

  /** x leaves its block while others remain: the node below it becomes the leader. */
  lemma LeaveBlock(s: Fgk, r: Fgk, x: int, head: seq<int>, cells: seq<int>, live: set<int>)
    requires Promoted(s, r, x) && Blocks(s, head, cells, live, NIL)
    requires Below(r, x) != NIL && r.weight[Below(r, x)] == r.weight[x]
    ensures 0 <= head[x] < MAX_NODES && head[x] in live
    ensures Blocks(Bump(r, x), head, cells[head[x] := Below(r, x)], live, x)
  {
    NextTop(s, r, x);
    SameCell(s, head, cells, live, x, Below(r, x));
    hide Sorted, Top, Ranked;
    LeaderLeft(s, r, x, Below(r, x), head, cells, live);
  }

  lemma LeaderLeft(s: Fgk, r: Fgk, x: int, k: int, head: seq<int>, cells: seq<int>, live: set<int>)
    requires Promoted(s, r, x) && Blocks(s, head, cells, live, NIL)
    requires Member(s, k, x) && s.weight[k] == s.weight[x] && Top(Bump(r, x), k) && head[k] == head[x]
    ensures 0 <= head[x] < MAX_NODES && head[x] in live
    ensures Blocks(Bump(r, x), head, cells[head[x] := k], live, x)
  {
    hide Sorted, Top;
    var b, h := Bump(r, x), head[x];
    var cells' := cells[h := k];
    forall y | Member(b, y, x)
      ensures && head[y] in live && Member(b, cells'[head[y]], x)
              && b.weight[cells'[head[y]]] == b.weight[y] && Top(b, cells'[head[y]])
    {
      assert Member(s, y, NIL) && head[y] in live;
      SameCell(s, head, cells, live, x, y);
      if s.weight[y] != s.weight[x] { LeaveOther(s, r, x, head, cells, live, y); }
    }
    forall c | c in live
      ensures Member(b, cells'[c], x) && head[cells'[c]] == c
    {
      assert Member(s, cells[c], NIL) && head[cells[c]] == c;
    }
  }

  /** A node whose neighbours in rank have other weights is alone in its weight. */
  lemma AloneInWeight(r: Fgk, x: int, y: int)
    requires Ranked(r.list, r.tree.size) && 0 < r.tree.size && Sorted(r.list, r.weight, r.tree.size)
    requires r.tree.Node(x) && r.tree.Node(y) && y != x
    requires Below(r, x) == NIL || r.weight[Below(r, x)] != r.weight[x]
    requires Beyond(r, x) == NIL || r.weight[Beyond(r, x)] != r.weight[x]
    ensures r.weight[y] != r.weight[x]
  {
    var q := r.list;
    assert q.order[q.rank[y]] == y && q.order[q.rank[x]] == x;
    assert forall i | 0 <= i < q.rank[x] :: r.weight[q.order[i]] < r.weight[x];
    assert forall i | q.rank[x] < i < r.tree.size :: r.weight[q.order[i]] > r.weight[x];
  }

  /** x leaves a block of its own: the cell dies. */
  lemma LeaveAlone(s: Fgk, r: Fgk, x: int, head: seq<int>, cells: seq<int>, cells': seq<int>, live: set<int>)
    requires Promoted(s, r, x) && Blocks(s, head, cells, live, NIL)
    requires Below(r, x) == NIL || r.weight[Below(r, x)] != r.weight[x]
    requires |cells'| == MAX_NODES && 0 <= head[x] < MAX_NODES && head[x] in live
    requires forall c | 0 <= c < MAX_NODES && c != head[x] :: cells'[c] == cells[c]
    ensures Blocks(Bump(r, x), head, cells', live - {head[x]}, x)
  {
    var b := Bump(r, x);
    assert Member(s, x, NIL);
    forall y | r.tree.Node(y) && y != x ensures s.weight[y] != s.weight[x] { AloneInWeight(r, x, y); }
    hide Sorted, Below, Beyond;
    forall y | Member(b, y, x)
      ensures && head[y] in live - {head[x]} && Member(b, cells'[head[y]], x)
              && b.weight[cells'[head[y]]] == b.weight[y] && Top(b, cells'[head[y]])
    {
      LeaveOther(s, r, x, head, cells, live, y);
    }
    forall c | c in live - {head[x]}
      ensures Member(b, cells'[c], x) && head[cells'[c]] == c
    {
      assert Member(s, cells[c], NIL) && head[cells[c]] == c;
    }
  }

  /** A member of another block does not notice x leaving. */
  lemma LeaveOther(s: Fgk, r: Fgk, x: int, head: seq<int>, cells: seq<int>, live: set<int>, y: int)
    requires Promoted(s, r, x) && Blocks(s, head, cells, live, NIL) && Member(s, y, NIL) && s.weight[y] != s.weight[x]
    ensures 0 <= head[y] < MAX_NODES && head[y] in live && head[y] != head[x] && s.tree.Node(cells[head[y]])
    ensures var b := Bump(r, x);
      Member(b, cells[head[y]], x) && b.weight[cells[head[y]]] == b.weight[y] && Top(b, cells[head[y]])
  {
    assert head[y] in live;
    SameCell(s, head, cells, live, x, y);
    var l := cells[head[y]];
    assert Member(s, l, NIL) && r.list.rank[l] == r.list.rank[l] && Top(r, l);
    BumpKeepsTop(r, x, l);
  }

  /** x joins the block above it. */
  lemma JoinBlock(b: Fgk, x: int, head: seq<int>, cells: seq<int>, live: set<int>)
    requires Ranked(b.list, b.tree.size) && 0 < b.tree.size && Sorted(b.list, b.weight, b.tree.size)
    requires Blocks(b, head, cells, live, x) && Member(b, x, NIL)
    requires Beyond(b, x) != NIL && b.weight[Beyond(b, x)] == b.weight[x]
    ensures Blocks(b, head[x := head[Beyond(b, x)]], cells, live, NIL)
  {
    var k := Beyond(b, x);
    var head' := head[x := head[k]];
    assert b.list.order[b.list.rank[x]] == x && b.list.rank[k] == b.list.rank[x] + 1;
    assert Member(b, k, x);
    hide Sorted, Top, Beyond;
    forall y | Member(b, y, NIL)
      ensures && head'[y] in live && Member(b, cells[head'[y]], NIL)
              && b.weight[cells[head'[y]]] == b.weight[y] && Top(b, cells[head'[y]])
    {
      var z := if y == x then k else y;
      assert Member(b, z, x) && head[z] in live;
    }
    forall c | c in live ensures Member(b, cells[c], NIL) && head'[cells[c]] == c {
      assert Member(b, cells[c], x);
    }
  }

  /** x starts a block of its own in cell c. */
  lemma JoinAlone(b: Fgk, x: int, head: seq<int>, cells: seq<int>, live: set<int>, c: int)
    requires Ranked(b.list, b.tree.size) && 0 < b.tree.size && Sorted(b.list, b.weight, b.tree.size)
    requires Blocks(b, head, cells, live, x) && Member(b, x, NIL)
    requires Beyond(b, x) == NIL || b.weight[Beyond(b, x)] != b.weight[x]
    requires Below(b, x) == NIL || b.weight[Below(b, x)] != b.weight[x]
    requires 0 <= c < MAX_NODES && c !in live
    ensures Blocks(b, head[x := c], cells[c := x], live + {c}, NIL)
  {
    assert Top(b, x);
    forall y | Member(b, y, x) ensures b.weight[y] != b.weight[x] { AloneInWeight(b, x, y); }
    NewBlock(b, x, head, cells, live, c);
  }

  lemma NewBlock(b: Fgk, x: int, head: seq<int>, cells: seq<int>, live: set<int>, c: int)
    requires 0 < b.tree.size <= MAX_NODES && Ranked(b.list, b.tree.size) && |b.weight| == MAX_NODES
    requires Blocks(b, head, cells, live, x) && Member(b, x, NIL) && Top(b, x)
    requires forall y | Member(b, y, x) :: b.weight[y] != b.weight[x]
    requires 0 <= c < MAX_NODES && c !in live
    ensures Blocks(b, head[x := c], cells[c := x], live + {c}, NIL)
  {
    hide Top, Ranked;
    var head', cells' := head[x := c], cells[c := x];
    forall y | Member(b, y, NIL)
      ensures && head'[y] in live + {c} && Member(b, cells'[head'[y]], NIL)
              && b.weight[cells'[head'[y]]] == b.weight[y] && Top(b, cells'[head'[y]])
    {
      if y != x { assert Member(b, y, x) && head[y] in live && Member(b, cells[head[y]], x); }
    }
    forall d | d in live + {c} ensures Member(b, cells'[d], NIL) && head'[cells'[d]] == d {
      if d != c { assert Member(b, cells[d], x); }
    }
  }

  /** An exchange within one block moves no other weight. */
  lemma ExchangeKeepsTops(s: Fgk, l: int, x: int, y: int)
    requires Ranked(s.list, s.tree.size) && |s.weight| == MAX_NODES && s.tree.Node(l) && s.tree.Node(x)
    requires s.weight[l] == s.weight[x] && s.tree.Node(y) && s.weight[y] != s.weight[x]
    requires Ranked(SwapRanks(s.list, l, x), s.tree.size)
    ensures Top(s, y) == Top(s.(list := SwapRanks(s.list, l, x)), y)
  {
    var q := s.list;
    assert q.order[q.rank[y]] == y && q.order[q.rank[x]] == x && q.order[q.rank[l]] == l;
  }

  lemma PromoteKeepsTop(s: Fgk, x: int, y: int)
    requires s.tree.Shaped() && Ranked(s.list, s.tree.size) && |s.weight| == MAX_NODES && s.tree.Node(x)
    requires s.tree.Node(y) && s.weight[y] != s.weight[x] && Ranked(Promote(s, x).list, s.tree.size)
    ensures Top(s, y) == Top(Promote(s, x), y)
  {
    LeaderRanks(s, x);
    hide Ranked, SwapSubtrees, SwapRanks, LeaderOf;
    if LeaderOf(s, x) != x { ExchangeKeepsTops(s, LeaderOf(s, x), x, y); }
  }

  lemma PromoteIsPromoted(s: Fgk, x: int)
    requires Weighted(s, x) && s.tree.Node(x) && s.weight[x] > 0 && Weighted(Promote(s, x), x)
    requires Topped(Promote(s, x), x) && SameBottom(s, Promote(s, x))
    ensures Promoted(s, Promote(s, x), x)
  {
    hide Linked, Labelled, Summed, Promote;
    assert Promote(s, x).tree.size == s.tree.size && Promote(s, x).weight == s.weight by { PromoteSame(s, x); }
    forall y | s.tree.Node(y) && s.weight[y] != s.weight[x] ensures Top(s, y) == Top(Promote(s, x), y) {
      PromoteKeepsTop(s, x, y);
    }
  }

  lemma PromoteSame(s: Fgk, x: int)
    requires s.tree.Shaped() && Ranked(s.list, s.tree.size) && |s.weight| == MAX_NODES && s.tree.Node(x)
    ensures Promote(s, x).tree.size == s.tree.size && Promote(s, x).weight == s.weight
  {
    hide SwapSubtrees, SwapRanks, Ranked;
  }

  /** The dead cells, linked through their own contents from `first`. */
  ghost predicate FreeChain(cells: seq<int>, free: seq<int>, first: int) {
    && |cells| == MAX_NODES
    && first == (if free == [] then NIL else free[0])
    && (forall i {:trigger free[i]} | 0 <= i < |free| :: 0 <= free[i] < MAX_NODES)
    && (forall i, j {:trigger free[i], free[j]} | 0 <= i < j < |free| :: free[i] != free[j])
    && (forall i, j {:trigger free[i], free[j]} | 0 <= i < |free| && j == i + 1 && j < |free| ::
         cells[free[i]] == free[j])
    && (free != [] ==> cells[free[|free| - 1]] == NIL)
  }

  /** The cells handed out so far are live or free. */
  ghost predicate Cells(live: set<int>, free: seq<int>, used: int) {
    && 0 <= used <= MAX_NODES
    && (forall c | c in free :: 0 <= c < used)
    && (forall c :: c in live <==> 0 <= c < used && c !in free)
  }

  /** The distinct nodes named by the first k cells. */
  ghost function Named(cells: seq<int>, k: nat): (r: set<int>)
    requires k <= |cells|
    ensures forall x :: x in r ==> exists c :: 0 <= c < k && cells[c] == x
    ensures (forall c, d | 0 <= c < d < k :: cells[c] != cells[d]) ==> |r| == k
  {
    if k == 0 then {} else Named(cells, k - 1) + {cells[k - 1]}
  }

  /** With no free cell, the live cells name different nodes, so there is room for one more. */
  lemma RoomForCell(s: Fgk, head: seq<int>, cells: seq<int>, live: set<int>, free: seq<int>, first: int,
                    used: int, ex: int)
    requires Ranked(s.list, s.tree.size) && 0 < s.tree.size && |s.weight| == MAX_NODES
    requires Blocks(s, head, cells, live, ex) && FreeChain(cells, free, first) && Cells(live, free, used)
    ensures first == NIL ==> used <= s.tree.size
  {
    if first == NIL {
      assert free == [];
      forall c, d | 0 <= c < d < used ensures cells[c] != cells[d] {
        assert c in live && d in live;
      }
      forall x | x in Named(cells, used) ensures x in UpTo(s.tree.size) {
        var c :| 0 <= c < used && cells[c] == x;
        assert c in live;
      }
      Subset(Named(cells, used), UpTo(s.tree.size));
    }
  }

  lemma TakeFree(cells: seq<int>, free: seq<int>, live: set<int>, used: int)
    requires free != [] && FreeChain(cells, free, free[0]) && Cells(live, free, used)
    ensures 0 <= free[0] < MAX_NODES && free[0] !in live
    ensures FreeChain(cells, free[1..], cells[free[0]])
    ensures Cells(live + {free[0]}, free[1..], used)
  {
    assert free == [free[0]] + free[1..];
    assert forall c :: c in free <==> c == free[0] || c in free[1..];
    var rest := free[1..];
    assert forall i | 0 <= i < |rest| :: rest[i] == free[i + 1];
    assert free[0] !in rest;
    assert free[0] in free;
    assert |free| > 1 ==> cells[free[0]] == free[1] && rest[|rest| - 1] == free[|free| - 1];
  }

  // ---- what the pointer assignments of swap and swaplist compute ----

  /** Where two nodes that swap exchanges hang */
  lemma SwapParents(t: Tree, a: int, b: int)
    requires Linked(t) && Apart(t, a, b)
    ensures (t.parent[a] == NIL <==> a == t.root) && (t.parent[b] == NIL <==> b == t.root)
    ensures var p, q := t.parent[a], t.parent[b];
      && (p != NIL ==> t.Node(p) && t.left[p] != t.right[p] && (t.left[p] == a || t.right[p] == a))
      && (q != NIL ==> t.Node(q) && t.left[q] != t.right[q] && (t.left[q] == b || t.right[q] == b))
  {
  }

  /** The child tables after the assignments of swap, when a and b hang from different nodes or a
      is the right sibling of b. */
  lemma SwapRows(t: Tree, a: int, b: int)
    requires Linked(t) && Apart(t, a, b) && !LeftSibling(t, a, b)
    ensures SwapSubtrees(t, a, b).left == Rows(t, t.left, a, b)
    ensures SwapSubtrees(t, a, b).right == Rows(t, t.right, a, b)
  {
    hide Linked;
    SwapRow(t, t.left, a, b);
    SwapRow(t, t.right, a, b);
    hide Rows, RenamedRows;
  }

  lemma SwapRow(t: Tree, ks: seq<int>, a: int, b: int)
    requires Linked(t) && Apart(t, a, b) && !LeftSibling(t, a, b) && (ks == t.left || ks == t.right)
    ensures RenamedRows(t, ks, a, b) == Rows(t, ks, a, b)
  {
    SwapParents(t, a, b);
    SameRows(t, ks, a, b);
  }

  /** Only the rows of the two parents hold a or b. */
  lemma SameRows(t: Tree, ks: seq<int>, a: int, b: int)
    requires Linked(t) && Apart(t, a, b) && !LeftSibling(t, a, b) && (ks == t.left || ks == t.right)
    ensures forall p | 0 <= p < MAX_NODES :: RenamedRows(t, ks, a, b)[p] == Rows(t, ks, a, b)[p]
  {
    SwapParents(t, a, b);
  }

  /** The child table ks with the entry for a, if it is in a's parent's row, replaced by b, and
      the other way round. */
  function Rows(t: Tree, ks: seq<int>, a: int, b: int): seq<int>
    requires t.Shaped() && |ks| == MAX_NODES && t.Node(a) && t.Node(b)
  {
    var p, q := t.parent[a], t.parent[b];
    var s := if t.Node(p) && ks[p] == a then ks[p := b] else ks;
    if t.Node(q) && ks[q] == b then s[q := a] else s
  }

  /** What the links of two nodes, the first one lower, look like. */
  lemma ChainedBounds(q: Ranking, n: int, next: seq<int>, prev: seq<int>, a: int, b: int)
    requires Chained(q, n, next, prev) && 0 <= a < n && 0 <= b < n && q.rank[a] < q.rank[b]
    ensures (prev[a] == NIL || 0 <= prev[a] < n) && 0 <= prev[b] < n && 0 <= next[a] < n
    ensures next[b] == NIL || 0 <= next[b] < n
    ensures prev[a] != a && prev[a] != b && prev[b] != b && next[a] != a && next[b] != a && next[b] != b
    ensures prev[a] != next[a] && prev[b] != next[b] && prev[a] != prev[b] && next[a] != next[b]
    ensures prev[a] != NIL ==> prev[a] != next[b]
    ensures next[a] == b <==> prev[b] == a
    ensures (prev[a] != NIL ==> next[prev[a]] == a) && next[prev[b]] == b && prev[next[a]] == a
    ensures next[b] != NIL ==> prev[next[b]] == b
  {
    var i, j := q.rank[a], q.rank[b];
    assert q.order[i] == a && q.order[j] == b;
    assert next[a] == q.order[i + 1] && prev[b] == q.order[j - 1];
    assert q.rank[next[a]] == i + 1 && q.rank[prev[b]] == j - 1;
    assert prev[a] != NIL ==> prev[a] == q.order[i - 1] && q.rank[prev[a]] == i - 1;
    assert next[b] != NIL ==> q.rank[next[b]] == j + 1;
  }

  /** How the links of a, one way and the other, stand to those of b. */
  ghost predicate Sound(n: int, links: seq<int>, others: seq<int>, a: int, b: int)
    requires |links| == |others| == MAX_NODES && 0 <= a < n <= MAX_NODES && 0 <= b < n
  {
    && (links[a] == NIL || 0 <= links[a] < n) && links[a] != a
    && (links[a] == b <==> others[b] == a) && (links[a] == b ==> links[b] != a)
    && (links[a] != NIL ==> links[a] != links[b] && links[a] != others[a] && others[links[a]] == a)
  }

  /** The links of any two nodes. */
  lemma LinkFacts(q: Ranking, n: int, next: seq<int>, prev: seq<int>, a: int, b: int)
    requires Chained(q, n, next, prev) && 0 <= a < n && 0 <= b < n && a != b
    ensures Sound(n, next, prev, a, b) && Sound(n, prev, next, a, b)
  {
    RanksDiffer(q, n, a, b);
    if q.rank[a] < q.rank[b] {
      ChainedBounds(q, n, next, prev, a, b);
    } else {
      ChainedBounds(q, n, next, prev, b, a);
    }
  }

  /** `links` with a and b exchanged, `others` being the links the other way: r is what it
      becomes when a and b change places in rank. */
  ghost predicate Crossed(n: int, links: seq<int>, others: seq<int>, a: int, b: int, r: seq<int>)
    requires |links| == |others| == |r| == MAX_NODES && 0 <= a < n <= MAX_NODES && 0 <= b < n
  {
    forall x {:trigger r[x]} | 0 <= x < n :: r[x] ==
      if x == b then (if links[a] == b then a else links[a])
      else if x == a then (if links[b] == a then b else links[b])
      else if x == others[a] then b else if x == others[b] then a else links[x]
  }

  /** Links in which a and b have changed places in rank. */
  ghost predicate Relinked(n: int, next: seq<int>, prev: seq<int>, a: int, b: int, next': seq<int>, prev': seq<int>)
    requires |next| == |prev| == |next'| == |prev'| == MAX_NODES && 0 <= a < n <= MAX_NODES && 0 <= b < n
  {
    Crossed(n, next, prev, a, b, next') && Crossed(n, prev, next, a, b, prev')
  }

  /** s with node a pointed to from p and node b from q, as far as those exist. */
  function Pointed(s: seq<int>, p: int, a: int, q: int, b: int): (r: seq<int>)
    requires (p == NIL || 0 <= p < |s|) && (q == NIL || 0 <= q < |s|)
    ensures |r| == |s|
  {
    var s1 := if p != NIL then s[p := a] else s;
    if q != NIL then s1[q := b] else s1
  }

  /** What the assignments of swaplist make of one direction of links, given what the other
      direction holds for a and b by then. */
  lemma PointedIsCrossed(n: int, links: seq<int>, others: seq<int>, a: int, b: int, s: seq<int>, pa: int, pb: int)
    requires |links| == |others| == |s| == MAX_NODES && 0 <= a < n <= MAX_NODES && 0 <= b < n && a != b
    requires Sound(n, links, others, a, b) && Sound(n, links, others, b, a)
    requires Sound(n, others, links, a, b) && Sound(n, others, links, b, a)
    requires s == links[a := links[b]][b := links[a]]
      || s == links[a := (if links[b] == a then b else links[b])][b := (if links[a] == b then a else links[a])]
    requires pa == (if others[b] == a then b else others[b]) && pb == (if others[a] == b then a else others[a])
    ensures Crossed(n, links, others, a, b, Pointed(s, pa, a, pb, b))
  {
  }

  lemma SwappedNext(q: Ranking, n: int, next: seq<int>, prev: seq<int>, a: int, b: int, next': seq<int>,
          prev': seq<int>, x: int)
    requires Chained(q, n, next, prev) && 0 <= a < n && 0 <= b < n && q.rank[a] < q.rank[b] && 0 <= x < n
    requires |next'| == |prev'| == MAX_NODES && Relinked(n, next, prev, a, b, next', prev')
    ensures var r := SwapRanks(q, b, a); next'[x] == if r.rank[x] + 1 < n then r.order[r.rank[x] + 1] else NIL
  {
    var i, j, k := q.rank[a], q.rank[b], q.rank[x];
    assert q.order[i] == a && q.order[j] == b && q.order[k] == x;
    assert prev[b] == q.order[j - 1] && next[a] == q.order[i + 1];
    assert q.rank[q.order[j - 1]] == j - 1 && q.rank[q.order[i + 1]] == i + 1;
    assert i > 0 ==> prev[a] == q.order[i - 1] && q.rank[q.order[i - 1]] == i - 1;
    hide Ranked;
  }

  lemma SwappedPrev(q: Ranking, n: int, next: seq<int>, prev: seq<int>, a: int, b: int, next': seq<int>,
          prev': seq<int>, x: int)
    requires Chained(q, n, next, prev) && 0 <= a < n && 0 <= b < n && q.rank[a] < q.rank[b] && 0 <= x < n
    requires |next'| == |prev'| == MAX_NODES && Relinked(n, next, prev, a, b, next', prev')
    ensures var r := SwapRanks(q, b, a); prev'[x] == if r.rank[x] > 0 then r.order[r.rank[x] - 1] else NIL
  {
    var i, j, k := q.rank[a], q.rank[b], q.rank[x];
    assert q.order[i] == a && q.order[j] == b && q.order[k] == x;
    assert prev[b] == q.order[j - 1] && next[a] == q.order[i + 1] && q.rank[q.order[i + 1]] == i + 1;
    assert i > 0 ==> prev[a] == q.order[i - 1] && q.rank[q.order[i - 1]] == i - 1;
    assert j + 1 < n ==> next[b] == q.order[j + 1] && q.rank[q.order[j + 1]] == j + 1;
    hide Ranked;
  }

  lemma LowerSwapKeepsChained(q: Ranking, n: int, next: seq<int>, prev: seq<int>, a: int, b: int,
                              next': seq<int>, prev': seq<int>)
    requires Chained(q, n, next, prev) && 0 <= a < n && 0 <= b < n && q.rank[a] < q.rank[b]
    requires |next'| == |prev'| == MAX_NODES && Relinked(n, next, prev, a, b, next', prev')
    requires Ranked(SwapRanks(q, b, a), n)
    ensures Chained(SwapRanks(q, b, a), n, next', prev')
  {
    var r := SwapRanks(q, b, a);
    forall x | 0 <= x < n
      ensures next'[x] == if r.rank[x] + 1 < n then r.order[r.rank[x] + 1] else NIL
      ensures prev'[x] == if r.rank[x] > 0 then r.order[r.rank[x] - 1] else NIL
    {
      SwappedNext(q, n, next, prev, a, b, next', prev', x);
      SwappedPrev(q, n, next, prev, a, b, next', prev', x);
    }
  }

  lemma SwapKeepsChained(q: Ranking, n: int, next: seq<int>, prev: seq<int>, a: int, b: int,
                         next': seq<int>, prev': seq<int>)
    requires Chained(q, n, next, prev) && 0 <= a < n && 0 <= b < n && a != b
    requires |next'| == |prev'| == MAX_NODES && Relinked(n, next, prev, a, b, next', prev')
    ensures Chained(SwapRanks(q, a, b), n, next', prev')
  {
    RanksDiffer(q, n, a, b);
    SwapRanksKeepsRanked(q, n, a, b);
    SwapRanksCommutes(q, n, a, b);
    if q.rank[a] < q.rank[b] {
      LowerSwapKeepsChained(q, n, next, prev, a, b, next', prev');
    } else {
      LinkFacts(q, n, next, prev, a, b);
      LinkFacts(q, n, next, prev, b, a);
      assert Relinked(n, next, prev, b, a, next', prev');
      LowerSwapKeepsChained(q, n, next, prev, b, a, next', prev');
    }
  }

  lemma SwapRanksCommutes(q: Ranking, n: int, a: int, b: int)
    requires Ranked(q, n) && 0 <= a < n && 0 <= b < n && a != b
    ensures SwapRanks(q, a, b) == SwapRanks(q, b, a)
  {
    assert q.order[q.rank[a]] == a && q.order[q.rank[b]] == b;
  }

  lemma RanksDiffer(q: Ranking, n: int, a: int, b: int)
    requires Ranked(q, n) && 0 <= a < n && 0 <= b < n && a != b
    ensures 0 <= q.rank[a] < n && 0 <= q.rank[b] < n && q.rank[a] != q.rank[b]
  {
    assert q.order[q.rank[a]] == a && q.order[q.rank[b]] == b;
  }

  /** The links of a and b exchanged, a self-link turned into a link to the other one. */
  function Unlooped(links: seq<int>, a: int, b: int): (r: seq<int>)
    requires 0 <= a < |links| && 0 <= b < |links|
  {
    links[a := (if links[b] == a then b else links[b])][b := (if links[a] == b then a else links[a])]
  }

  /** next and prev after all assignments of swaplist, starting with the exchanged links. */
  function RelinkedPrev(next1: seq<int>, prev1: seq<int>, a: int, b: int): (r: seq<int>)
    requires 0 <= a < |next1| && 0 <= b < |next1|
    requires (next1[a] == NIL || 0 <= next1[a] < |prev1|) && (next1[b] == NIL || 0 <= next1[b] < |prev1|)
    ensures |r| == |prev1|
  {
    Pointed(Pointed(prev1, next1[a], a, NIL, NIL), next1[b], b, NIL, NIL)
  }

  /** The assignments of swaplist keep the list linked, with a and b exchanged. */
  lemma SwapListLinks(q: Ranking, n: int, next: seq<int>, prev: seq<int>, a: int, b: int)
    requires Ranked(q, n) && n <= MAX_NODES && |next| == |prev| == MAX_NODES
    requires Chained(q, n, next, prev) && 0 <= a < n && 0 <= b < n && a != b
    ensures 0 <= q.rank[a] < n && 0 <= q.rank[b] < n && next[a] != a && next[b] != b
    ensures Ranked(SwapRanks(q, a, b), n) && |q.order| == |SwapRanks(q, a, b).order| == n
    ensures |q.rank| == |SwapRanks(q, a, b).rank| == MAX_NODES
    ensures a != q.order[0] && b != q.order[0] ==> SwapRanks(q, a, b).order[0] == q.order[0]
    ensures var next1, prev1 := Unlooped(next, a, b), prev[a := prev[b]][b := prev[a]];
      && (next1[a] == NIL || 0 <= next1[a] < MAX_NODES) && (next1[b] == NIL || 0 <= next1[b] < MAX_NODES)
      && var prev2 := RelinkedPrev(next1, prev1, a, b);
      && (prev2[a] == NIL || 0 <= prev2[a] < MAX_NODES) && (prev2[b] == NIL || 0 <= prev2[b] < MAX_NODES)
      && Chained(SwapRanks(q, a, b), n, RelinkedPrev(prev2, next1, a, b), prev2)
  {
    hide Chained, Crossed;
    SwapRanksKeepsRanked(q, n, a, b);
    assert q.order[q.rank[a]] == a && q.order[q.rank[b]] == b;
    hide Ranked, SwapRanks;
    LinkFacts(q, n, next, prev, a, b);
    LinkFacts(q, n, next, prev, b, a);
    RanksDiffer(q, n, a, b);
    var next1, prev1 := Unlooped(next, a, b), prev[a := prev[b]][b := prev[a]];
    PointedIsCrossed(n, prev, next, a, b, prev1, next1[a], next1[b]);
    var prev2 := RelinkedPrev(next1, prev1, a, b);
    PointedIsCrossed(n, next, prev, a, b, next1, prev2[a], prev2[b]);
    SwapKeepsChained(q, n, next, prev, a, b, RelinkedPrev(prev2, next1, a, b), prev2);
  }

  // ---- what increment looks up ----

  /** The test increment makes finds out whether x leads its block, and the block's cell names
      the leader. */
  lemma Lookup(s: Fgk, flipped: bool, x: int, next: seq<int>, prev: seq<int>,
               head: seq<int>, cells: seq<int>, live: set<int>)
    requires Pending(s, flipped, x) && Chained(s.list, s.tree.size, next, prev)
    requires Blocks(s, head, cells, live, NIL)
    ensures 0 <= head[x] < MAX_NODES && cells[head[x]] == LeaderOf(s, x)
    ensures next[x] == NIL || 0 <= next[x] < MAX_NODES
    ensures next[x] != NIL && s.weight[next[x]] == s.weight[x] <==> LeaderOf(s, x) != x
    ensures s.tree.Node(LeaderOf(s, x)) && Linked(s.tree) && LeaderOf(s, x) != s.list.order[0]
    ensures LeaderOf(s, x) != x && LeaderOf(s, x) != s.tree.parent[x] ==>
      Apart(s.tree, LeaderOf(s, x), x) && Unrelated(s.tree, LeaderOf(s, x), x)
  {
    hide Laid, Labelled, Summed, LeaderOf, Linked, Apart, Unrelated, Settled, Sorted, UnderLeader;
    LookupLeader(s, x, next, prev, head, cells, live);
    if LeaderOf(s, x) != x && !UnderLeader(s, x) {
      ApartFromLeader(s, flipped, x);
      LeaderIsUnrelated(s, flipped, x);
    }
    UnderLeaderIs(s, x);
  }

  lemma UnderLeaderIs(s: Fgk, x: int)
    requires Weighted(s, x) && s.tree.Node(x)
    ensures UnderLeader(s, x) <==> LeaderOf(s, x) == s.tree.parent[x]
  {
    hide Linked, Ranked, Labelled, Sorted, Summed, LeaderOf;
  }

  lemma LookupLeader(s: Fgk, x: int, next: seq<int>, prev: seq<int>, head: seq<int>, cells: seq<int>, live: set<int>)
    requires Weighted(s, x) && s.tree.Node(x) && x != s.list.order[0] && Chained(s.list, s.tree.size, next, prev)
    requires Blocks(s, head, cells, live, NIL)
    ensures 0 <= head[x] < MAX_NODES && cells[head[x]] == LeaderOf(s, x)
    ensures next[x] == NIL || 0 <= next[x] < MAX_NODES
    ensures next[x] != NIL && s.weight[next[x]] == s.weight[x] <==> LeaderOf(s, x) != x
    ensures s.tree.Node(LeaderOf(s, x)) && LeaderOf(s, x) != s.list.order[0]
  {
    hide Labelled, Summed, LeaderOf, Linked;
    LeaderRanks(s, x);
    assert s.list.order[s.list.rank[x]] == x;
    assert Member(s, x, NIL);
    CellNamesLeader(s, head, cells, live, x);
    hide Blocks;
  }

  /** What increment finds below x, and why writing x's cell leaves the free cells alone. */
  lemma LookBelow(s: Fgk, r: Fgk, x: int, next: seq<int>, prev: seq<int>, head: seq<int>, cells: seq<int>,
                  live: set<int>, free: seq<int>, first: int, used: int, v: int)
    requires Promoted(s, r, x) && Chained(r.list, r.tree.size, next, prev)
    requires Blocks(s, head, cells, live, NIL) && FreeChain(cells, free, first) && Cells(live, free, used)
    ensures 0 <= head[x] < MAX_NODES && head[x] in live
    ensures prev[x] == Below(r, x) && (prev[x] == NIL || 0 <= prev[x] < MAX_NODES)
    ensures FreeChain(cells[head[x] := v], free, first)
  {
    assert Member(s, x, NIL);
    LiveWrite(cells, live, free, first, used, head[x], v);
  }

  lemma LiveWrite(cells: seq<int>, live: set<int>, free: seq<int>, first: int, used: int, c: int, v: int)
    requires FreeChain(cells, free, first) && Cells(live, free, used) && c in live && 0 <= c < MAX_NODES
    ensures FreeChain(cells[c := v], free, first)
  {
    forall i | 0 <= i < |free| ensures free[i] != c {
      assert free[i] in free;
    }
  }

  /** What increment finds above x once x weighs more. */
  lemma LookAbove(b: Fgk, x: int, next: seq<int>, prev: seq<int>, head: seq<int>, cells: seq<int>, live: set<int>)
    requires Ranked(b.list, b.tree.size) && 0 < b.tree.size && |b.weight| == MAX_NODES
    requires Chained(b.list, b.tree.size, next, prev) && b.tree.Node(x)
    ensures next[x] == Beyond(b, x) && (next[x] == NIL || 0 <= next[x] < MAX_NODES)
  {
  }

  /** x, having gained a unit, is alone in its weight or at the bottom of its block. */
  ghost predicate ReadyToJoin(b: Fgk, x: int) {
    && 0 < b.tree.size && Ranked(b.list, b.tree.size) && |b.weight| == MAX_NODES
    && Member(b, x, NIL) && Sorted(b.list, b.weight, b.tree.size)
    && (Below(b, x) == NIL || b.weight[Below(b, x)] != b.weight[x])
  }

  lemma BumpReadies(r: Fgk, x: int)
    requires 0 < r.tree.size && Ranked(r.list, r.tree.size) && Sorted(r.list, r.weight, r.tree.size) && Topped(r, x)
    ensures ReadyToJoin(Bump(r, x), x)
  {
    BumpKeepsSorted(r.list, r.weight, r.tree.size, x);
    assert r.list.order[r.list.rank[x]] == x;
  }

  /** What the parts of increment need of one raise. */
  lemma RaiseParts(s: Fgk, flipped: bool, x: int)
    requires Pending(s, flipped, x)
    ensures Promoted(s, Promote(s, x), x) && ReadyToJoin(Raise(s, x), x)
  {
    hide Ranked, Laid, Linked, Labelled, Sorted, Summed, Promote, Settled, FlippedAfter, Topped, Promoted, ReadyToJoin;
    hide SameBottom;
    PromoteStep(s, flipped, x);
    PromotedIsPositive(s, flipped, x);
    PromoteIsPromoted(s, x);
    BumpReadies(Promote(s, x), x);
  }

  /** Exchanging x with the equally heavy node p just below it keeps the blocks, once the cell
      that named x names p. */
  lemma RestoreBlocks(c: Fgk, x: int, p: int, head: seq<int>, cells: seq<int>, live: set<int>)
    requires Ranked(c.list, c.tree.size) && |c.weight| == MAX_NODES && 0 < c.tree.size
    requires Blocks(c, head, cells, live, NIL) && Sorted(c.list, c.weight, c.tree.size)
    requires Member(c, x, NIL) && Member(c, p, NIL) && c.list.rank[p] + 1 == c.list.rank[x]
    requires c.weight[p] == c.weight[x]
    requires Ranked(SwapRanks(c.list, x, p), c.tree.size) && SwapRanks(c.list, x, p).order[0] == c.list.order[0]
    ensures 0 <= head[x] < MAX_NODES && head[x] in live
    ensures Blocks(c.(list := SwapRanks(c.list, x, p)), head,
                   if cells[head[x]] == x then cells[head[x] := p] else cells, live, NIL)
  {
    var d := c.(list := SwapRanks(c.list, x, p));
    var cells' := if cells[head[x]] == x then cells[head[x] := p] else cells;
    assert head[x] in live;
    assert head[x] == head[p];
    forall y | Member(d, y, NIL)
      ensures && head[y] in live && Member(d, cells'[head[y]], NIL)
              && d.weight[cells'[head[y]]] == d.weight[y] && Top(d, cells'[head[y]])
    {
      assert Member(c, y, NIL) && head[y] in live;
      SameCell(c, head, cells, live, x, y);
      RestoreTop(c, x, p, cells[head[y]]);
    }
    forall e | e in live ensures Member(d, cells'[e], NIL) && head[cells'[e]] == e {
      assert Member(c, cells[e], NIL);
    }
  }

  lemma RestoreTop(c: Fgk, x: int, p: int, l: int)
    requires Ranked(c.list, c.tree.size) && |c.weight| == MAX_NODES && c.tree.Node(x) && c.tree.Node(p)
    requires c.tree.Node(l)
    requires c.list.rank[p] + 1 == c.list.rank[x] && c.weight[p] == c.weight[x]
    requires Ranked(SwapRanks(c.list, x, p), c.tree.size) && Top(c, l)
    ensures Top(c.(list := SwapRanks(c.list, x, p)), if l == x then p else l)
  {
    assert c.list.order[c.list.rank[l]] == l && c.list.order[c.list.rank[x]] == x && c.list.order[c.list.rank[p]] == p;
  }

  /** What the last part of increment needs once the ancestors of x have been incremented. */
  ghost predicate ReadyToRestore(c: Fgk, x: int) {
    && c.tree.Shaped() && Ranked(c.list, c.tree.size) && c.tree.Node(x) && |c.weight| == MAX_NODES
    && Sorted(c.list, c.weight, c.tree.size) && c.tree.parent[x] != NIL
    && (JustAbove(c, x) ==> c.tree.Node(c.tree.parent[x]) && c.weight[c.tree.parent[x]] == c.weight[x] > 0)
  }

  lemma RestoreParts(s: Fgk, flipped: bool, x: int, a: Fgk, f: bool, p: int, c: Fgk)
    requires RaisedTo(s, flipped, x, a, f, p) && Incremented(a, c, f, p) && s.tree.Shaped() && s.tree.Node(x)
    ensures ReadyToRestore(c, x)
  {
    hide Laid, Linked, Labelled, Summed, Frozen, SameLeaves, Settled, Ranked;
    IncrementShapes(s, flipped, x, a, f, p, c);
    IncrementSettles(s, flipped, x, a, f, p, c);
  }

  lemma RestorePlaces(c: Fgk, x: int, next: seq<int>, prev: seq<int>)
    requires ReadyToRestore(c, x) && Chained(c.list, c.tree.size, next, prev)
    ensures prev[x] == c.tree.parent[x] <==> JustAbove(c, x)
    ensures JustAbove(c, x) ==>
      var p := c.tree.parent[x];
      && Member(c, x, NIL) && Member(c, p, NIL) && p != x
      && c.list.rank[p] + 1 == c.list.rank[x]
      && Ranked(SwapRanks(c.list, x, p), c.tree.size) && SwapRanks(c.list, x, p).order[0] == c.list.order[0]
  {
    assert c.list.order[c.list.rank[x]] == x;
    if JustAbove(c, x) {
      SwapRanksKeepsRanked(c.list, c.tree.size, x, c.tree.parent[x]);
    }
  }

  // ---- the first occurrence of a symbol ----

  lemma SplitNext(q: Ranking, n: int, next: seq<int>, prev: seq<int>, v: Ranking, x: int)
    requires Chained(q, n, next, prev) && Extends(q, n, v) && 0 <= x < n && x != q.order[0]
    ensures (if v.rank[x] + 1 < n + 2 then v.order[v.rank[x] + 1] else NIL) == next[x]
    ensures (if v.rank[x] > 0 then v.order[v.rank[x] - 1] else NIL) == if x == next[q.order[0]] then n + 1 else prev[x]
  {
    var k := q.rank[x];
    assert q.order[k] == x && k > 0 && v.rank[x] == k + 2;
    var up, down := v.rank[x] + 1, v.rank[x] - 1;
    assert k + 1 < n ==> v.order[up] == q.order[k + 1];
    assert k > 1 ==> v.order[down] == q.order[k - 1];
    assert next[q.order[0]] == if 1 < n then q.order[1] else NIL;
    assert x == q.order[1] <==> k == 1;
  }

  /** The links after nodes n and n + 1 have been inserted just above node z. */
  ghost predicate PairLinked(n: int, z: int, next: seq<int>, prev: seq<int>, next': seq<int>, prev': seq<int>) {
    && |next| == |prev| == MAX_NODES && 0 <= z < n && n + 2 <= MAX_NODES
    && (next[z] == NIL || (0 <= next[z] < n && next[z] != z))
    && next' == next[n + 1 := next[z]][z := n + 1][n := n + 1][z := n]
    && prev' == (if next[z] != NIL then prev[next[z] := n + 1] else prev)[n + 1 := z][n + 1 := n][n := z]
  }

  /** The links of NYT and of the new nodes. */
  lemma PairNext(q: Ranking, n: int, next: seq<int>, prev: seq<int>, v: Ranking, next': seq<int>, prev': seq<int>)
    requires Chained(q, n, next, prev) && Extends(q, n, v) && PairLinked(n, q.order[0], next, prev, next', prev')
    ensures next'[q.order[0]] == n && next'[n] == n + 1 && next'[n + 1] == if n > 1 then v.order[3] else NIL
    ensures prev'[q.order[0]] == NIL && prev'[n] == q.order[0] && prev'[n + 1] == n
  {
    var z := q.order[0];
    assert q.rank[z] == 0;
    var i, j := 1, 3;
    assert n > 1 ==> v.order[j] == q.order[i] == next[z];
  }

  lemma PairSizes(n: int, z: int, next: seq<int>, prev: seq<int>, next': seq<int>, prev': seq<int>)
    requires PairLinked(n, z, next, prev, next', prev')
    ensures |next'| == |prev'| == MAX_NODES
  {
  }

  /** The links of the other nodes. */
  lemma OldLinks(n: int, z: int, next: seq<int>, prev: seq<int>, next': seq<int>, prev': seq<int>, x: int)
    requires PairLinked(n, z, next, prev, next', prev') && 0 <= x < n && x != z
    ensures |next'| == |prev'| == MAX_NODES
    ensures next'[x] == next[x] && prev'[x] == if x == next[z] then n + 1 else prev[x]
  {
  }

  /** Linking two new nodes in just above NYT. */
  lemma SplitChained(q: Ranking, n: int, next: seq<int>, prev: seq<int>, v: Ranking, next': seq<int>, prev': seq<int>)
    requires Chained(q, n, next, prev) && Extends(q, n, v) && PairLinked(n, q.order[0], next, prev, next', prev')
    ensures Chained(v, n + 2, next', prev')
  {
    PairSizes(n, q.order[0], next, prev, next', prev');
    forall x | 0 <= x < n + 2
      ensures next'[x] == if v.rank[x] + 1 < n + 2 then v.order[v.rank[x] + 1] else NIL
      ensures prev'[x] == if v.rank[x] > 0 then v.order[v.rank[x] - 1] else NIL
    {
      hide PairLinked, Extends, Chained;
      SplitLink(q, n, next, prev, v, next', prev', x);
    }
  }

  lemma SplitLink(q: Ranking, n: int, next: seq<int>, prev: seq<int>, v: Ranking, next': seq<int>, prev': seq<int>,
          x: int)
    requires Chained(q, n, next, prev) && Extends(q, n, v) && PairLinked(n, q.order[0], next, prev, next', prev')
    requires 0 <= x < n + 2 <= MAX_NODES && |v.rank| == |next'| == |prev'| == MAX_NODES && |v.order| == n + 2
    requires 0 <= v.rank[x] < n + 2
    ensures next'[x] == if v.rank[x] + 1 < n + 2 then v.order[v.rank[x] + 1] else NIL
    ensures prev'[x] == if v.rank[x] > 0 then v.order[v.rank[x] - 1] else NIL
  {
    var z := q.order[0];
    if x < n && x != z {
      hide PairLinked, Extends, Chained;
      SplitNext(q, n, next, prev, v, x);
      OldLinks(n, z, next, prev, next', prev', x);
    } else {
      PairNext(q, n, next, prev, v, next', prev');
      assert v.rank[z] == 0 && v.rank[n] == 1 && v.rank[n + 1] == 2;
      hide PairLinked, Chained;
      assert v.order[0] == z && v.order[1] == n && v.order[2] == n + 1;
    }
  }

  /** The cell h of the two new nodes, given the node that was lowest above NYT: that node's, if it
      weighs 1, or else a new one that names the upper of the two. */
  ghost predicate NewHead(n: int, lowest: int, weight: seq<int>, head: seq<int>, cells: seq<int>, live: set<int>,
                          h: int, cells': seq<int>, live': set<int>)
  {
    && |weight| == |head| == |cells| == MAX_NODES && (lowest == NIL || 0 <= lowest < MAX_NODES)
    && if lowest != NIL && weight[lowest] == 1
       then h == head[lowest] && cells' == cells && live' == live
       else 0 <= h < MAX_NODES && h !in live && cells' == cells[h := n + 1] && live' == live + {h}
  }

  /** In the split tree the old members keep their blocks' tops. */
  lemma SplitTop(s: Fgk, b: Fgk, l: int)
    requires Ranked(s.list, s.tree.size) && |s.weight| == MAX_NODES && 0 < s.tree.size && s.tree.size + 2 <= MAX_NODES
    requires Extends(s.list, s.tree.size, b.list) && b.tree.size == s.tree.size + 2
    requires b.weight == s.weight[s.tree.size + 1 := 1][s.tree.size := 1]
    requires Member(s, l, NIL) && Top(s, l)
    ensures Top(b, l)
  {
    var k := s.list.rank[l];
    assert s.list.order[k] == l && b.list.rank[l] == k + 2;
    var up := k + 3;
    assert k + 1 < s.tree.size ==> b.list.order[up] == s.list.order[k + 1];
  }

  /** b has two nodes of weight 1 more than s, and the tops of s are tops in b. */
  ghost predicate Grown(s: Fgk, b: Fgk) {
    && 0 < s.tree.size && b.tree.size == s.tree.size + 2 <= MAX_NODES && |s.weight| == MAX_NODES
    && Ranked(s.list, s.tree.size) && Ranked(b.list, b.tree.size) && 0 <= s.list.order[0] < s.tree.size
    && b.list.order[0] == s.list.order[0]
    && b.weight == s.weight[s.tree.size + 1 := 1][s.tree.size := 1]
    && (forall l {:trigger Top(b, l)} | Member(s, l, NIL) && Top(s, l) :: Top(b, l))
  }

  lemma SplitGrows(s: Fgk, b: Fgk)
    requires Ranked(s.list, s.tree.size) && |s.weight| == MAX_NODES && 0 < s.tree.size && s.tree.size + 2 <= MAX_NODES
    requires Extends(s.list, s.tree.size, b.list) && b.tree.size == s.tree.size + 2
    requires b.weight == s.weight[s.tree.size + 1 := 1][s.tree.size := 1]
    ensures Grown(s, b)
  {
    forall l | Member(s, l, NIL) && Top(s, l) ensures Top(b, l) {
      SplitTop(s, b, l);
    }
  }

  /** The weight-1 block exists: the new nodes join it. */
  lemma SplitJoins(s: Fgk, b: Fgk, head: seq<int>, cells: seq<int>, live: set<int>, k: int)
    requires Grown(s, b) && Blocks(s, head, cells, live, NIL) && Member(s, k, NIL) && s.weight[k] == 1
    ensures Blocks(b, head[s.tree.size + 1 := head[k]][s.tree.size := head[k]], cells, live, NIL)
  {
    hide Ranked, Top;
    var n := s.tree.size;
    var head' := head[n + 1 := head[k]][n := head[k]];
    forall y | Member(b, y, NIL)
      ensures && head'[y] in live && Member(b, cells[head'[y]], NIL)
              && b.weight[cells[head'[y]]] == b.weight[y] && Top(b, cells[head'[y]])
    {
      var x := if y < n then y else k;
      assert Member(s, x, NIL) && head[x] in live;
    }
    forall e | e in live ensures Member(b, cells[e], NIL) && head'[cells[e]] == e {
      assert Member(s, cells[e], NIL);
    }
  }

  /** No node weighs 1 yet: the new nodes share a new cell. */
  lemma SplitStarts(s: Fgk, b: Fgk, head: seq<int>, cells: seq<int>, live: set<int>, h: int)
    requires Grown(s, b) && Blocks(s, head, cells, live, NIL) && Top(b, s.tree.size + 1)
    requires forall y | Member(s, y, NIL) :: s.weight[y] != 1
    requires 0 <= h < MAX_NODES && h !in live
    ensures Blocks(b, head[s.tree.size + 1 := h][s.tree.size := h], cells[h := s.tree.size + 1], live + {h}, NIL)
  {
    hide Ranked, Top;
    var n := s.tree.size;
    var head', cells' := head[n + 1 := h][n := h], cells[h := n + 1];
    forall y | Member(b, y, NIL)
      ensures && head'[y] in live + {h} && Member(b, cells'[head'[y]], NIL)
              && b.weight[cells'[head'[y]]] == b.weight[y] && Top(b, cells'[head'[y]])
    {
      if y < n {
        assert Member(s, y, NIL) && head[y] in live;
      }
    }
    forall e | e in live + {h} ensures Member(b, cells'[e], NIL) && head'[cells'[e]] == e {
      if e in live { assert Member(s, cells[e], NIL); }
    }
  }

  /** The inner node of a split tops the block of weight 1 if no old node weighs 1. */
  lemma NewTop(s: Fgk, b: Fgk)
    requires Ranked(s.list, s.tree.size) && |s.weight| == MAX_NODES && 0 < s.tree.size && s.tree.size + 2 <= MAX_NODES
    requires Extends(s.list, s.tree.size, b.list) && b.tree.size == s.tree.size + 2
    requires b.weight == s.weight[s.tree.size + 1 := 1][s.tree.size := 1]
    requires forall y | Member(s, y, NIL) :: s.weight[y] != 1
    ensures Top(b, s.tree.size + 1)
  {
    if s.tree.size > 1 {
      var i, j := 1, 3;
      assert b.list.order[j] == s.list.order[i] && s.list.rank[s.list.order[i]] == 1;
      assert Member(s, s.list.order[i], NIL);
    }
  }

  /** Only the lowest node above NYT can tell whether some node weighs 1. */
  lemma LightestWeighsOne(s: Fgk)
    requires Ranked(s.list, s.tree.size) && 0 < s.tree.size && Sorted(s.list, s.weight, s.tree.size)
    ensures s.tree.size > 1 ==> Member(s, s.list.order[1], NIL)
    ensures (s.tree.size > 1 && s.weight[s.list.order[1]] == 1) || (forall y | Member(s, y, NIL) :: s.weight[y] != 1)
  {
    if s.tree.size > 1 {
      assert s.list.rank[s.list.order[1]] == 1;
    }
    forall y | Member(s, y, NIL)
      ensures s.tree.size > 1 && s.weight[y] >= s.weight[s.list.order[1]] >= 1
    {
      assert s.list.order[s.list.rank[y]] == y;
    }
  }

  lemma SplitBlocks(s: Fgk, b: Fgk, head: seq<int>, cells: seq<int>, live: set<int>, h: int,
                    cells': seq<int>, live': set<int>)
    requires Ranked(s.list, s.tree.size) && |s.weight| == |head| == |cells| == MAX_NODES
    requires 0 < s.tree.size && s.tree.size + 2 <= MAX_NODES
    requires Sorted(s.list, s.weight, s.tree.size) && Blocks(s, head, cells, live, NIL)
    requires Extends(s.list, s.tree.size, b.list) && b.tree.size == s.tree.size + 2
    requires b.weight == s.weight[s.tree.size + 1 := 1][s.tree.size := 1]
    requires NewHead(s.tree.size, if s.tree.size > 1 then s.list.order[1] else NIL, s.weight, head, cells, live,
                     h, cells', live')
    ensures 0 < b.tree.size && Ranked(b.list, b.tree.size) && |b.weight| == MAX_NODES
    ensures Blocks(b, head[s.tree.size + 1 := h][s.tree.size := h], cells', live', NIL)
  {
    LightestWeighsOne(s);
    SplitGrows(s, b);
    SplitSizes(s, b);
    hide Sorted, Blocks, Top, Grown, Extends;
    if s.tree.size > 1 && s.weight[s.list.order[1]] == 1 {
      SplitJoins(s, b, head, cells, live, s.list.order[1]);
    } else {
      NewTop(s, b);
      SplitStarts(s, b, head, cells, live, h);
    }
  }

  lemma SplitSizes(s: Fgk, b: Fgk)
    requires Grown(s, b)
    ensures 0 < b.tree.size && Ranked(b.list, b.tree.size) && |b.weight| == MAX_NODES
  {
  }

  /** What Huff_addRef reads before it splits the NYT node. */
  lemma SplitLookup(s: Fgk, next: seq<int>, prev: seq<int>, head: seq<int>, cells: seq<int>, live: set<int>, c: int)
    requires HuffmanTree.Valid(s) && Chained(s.list, s.tree.size, next, prev)
    requires Blocks(s, head, cells, live, NIL) && 0 <= c < NYT && s.tree.size + 2 <= MAX_NODES
    ensures var z := s.list.order[0];
      && 0 <= z < s.tree.size
      && next[z] == (if s.tree.size > 1 then s.list.order[1] else NIL)
      && (next[z] == NIL || (0 <= next[z] < s.tree.size && next[z] != z))
      && s.tree.Shaped() && !s.tree.Internal(z)
      && (s.tree.parent[z] == NIL || s.tree.Node(s.tree.parent[z]))
  {
    hide Laid, Summed, Sorted;
    NytIsLeaf(s);
    assert s.list.rank[s.list.order[0]] == 0;
    assert s.tree.size > 1 ==> s.list.rank[s.list.order[1]] == 1;
    assert s.list.order[0] != s.tree.root ==> s.tree.Node(s.tree.parent[s.list.order[0]]);
  }

  /** The list and the cells after Huff_addRef has split the NYT node. */
  lemma SplitStored(s: Fgk, c: int, next: seq<int>, prev: seq<int>, head: seq<int>, cells: seq<int>, live: set<int>,
                    b: Fgk, h: int, next': seq<int>, prev': seq<int>, cells': seq<int>, live': set<int>)
    requires 0 < s.tree.size && s.tree.size + 2 <= MAX_NODES && |head| == |cells| == |next| == MAX_NODES
    requires |s.list.order| > 0 && 0 <= s.list.order[0] < MAX_NODES && 0 <= c < NYT
    requires HuffmanTree.Valid(s) && Chained(s.list, s.tree.size, next, prev) && b == Split(s, c)
    requires Blocks(s, head, cells, live, NIL)
    requires NewHead(s.tree.size, next[s.list.order[0]], s.weight, head, cells, live, h, cells', live')
    requires PairLinked(s.tree.size, s.list.order[0], next, prev, next', prev')
    ensures Ranked(b.list, b.tree.size) && b.tree.size == s.tree.size + 2
    ensures |b.list.order| > 0 && b.list.order[0] == s.list.order[0]
    ensures |b.list.order| == b.tree.size && |b.list.rank| == |next'| == |prev'| == |cells'| == MAX_NODES
    ensures Chained(b.list, b.tree.size, next', prev')
    ensures Blocks(b, head[s.tree.size + 1 := h][s.tree.size := h], cells', live', NIL)
  {
    SplitLookup(s, next, prev, head, cells, live, c);
    SplitExtends(s.list, s.tree.size);
    hide Laid, Labelled, Summed, Linked, Chained, Blocks, Sorted;
    SplitChained(s.list, s.tree.size, next, prev, b.list, next', prev');
    SplitBlocks(s, b, head, cells, live, h, cells', live');
  }

  lemma CellIsLive(live: set<int>, free: seq<int>, used: int, c: int)
    requires Cells(live, free, used) && c in live
    ensures 0 <= c < MAX_NODES
  {
  }

  /** What Huff_addRef does next, by whether c has a leaf. */
  lemma AddRefUnfolds(s: Fgk, c: Symbol)
    requires Reachable(s)
    ensures |s.loc| == NYT + 1 && s.tree.Shaped() && s.tree.size < MAX_NODES
    ensures if s.loc[c] == NIL then
        && s.tree.size + 2 < MAX_NODES && Split(s, c).tree.Shaped()
        && var p := Split(s, c).tree.parent[s.tree.size + 1];
        && (p == NIL || Pending(Split(s, c), false, p))
        && AddRef(s, c) == if p == NIL then Split(s, c) else Increment(Split(s, c), false, p)
      else Pending(s, false, s.loc[c]) && AddRef(s, c) == Increment(s, false, s.loc[c])
  {
    hide Ranked, Linked, Labelled, Sorted, Summed, Laid, SplitTree, SplitRanking, Increment;
    SeenIsBounded(s.loc);
    if s.loc[c] == NIL {
      SplitIsReachable(s, c);
      SplitHangs(s, c);
    } else {
      LeafIsPending(s, c);
    }
  }

  lemma SplitHangs(s: Fgk, c: int)
    requires HuffmanTree.Valid(s) && 0 <= c < NYT && s.tree.size + 2 <= MAX_NODES
    ensures Split(s, c).tree.Shaped() && Ranked(s.list, s.tree.size)
    ensures Split(s, c).tree.parent[s.tree.size + 1] == s.tree.parent[s.list.order[0]]
  {
    hide Laid, Labelled, Summed, Sorted;
    SplitIsSplit(s, c);
  }
}
