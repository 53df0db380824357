/**
  The adaptive Huffman coder of Shared/huffman.c as it works: tree pointers, a doubly linked list
  in rank order, and shared block-leader cells with a free list, all updated in place. A node is
  the index of its slot, a cell the index of its slot in nodePtrs.
 */
module HuffmanCoder {
  import opened HuffmanTree
  import opened HuffmanList

  class Huff {
    var blocNode: int
    var blocPtrs: int
    var tree: int
    var lhead: int
    var loc: seq<int>
    var freelist: int

    // the fields of the slots of nodeList
    var left: seq<int>
    var right: seq<int>
    var parent: seq<int>
    var next: seq<int>
    var prev: seq<int>
    var head: seq<int>
    var weight: seq<int>
    var symbol: seq<int>

    // a live cell holds a node, a free one the next free cell
    var nodePtrs: seq<int>

    ghost var list: Ranking
    ghost var free: seq<int>
    ghost var live: set<int>

    /** The tree and the list this object stands for. */
    ghost function Abs(): Fgk
      reads this
    {
      Fgk(Tree(blocNode, left, right, parent, symbol, tree), list, weight, loc)
    }

    /** The list links and the cell pool represent `list`, `free` and `live`. */
    ghost predicate Stored()
      reads this
    {
      && 0 < blocNode <= MAX_NODES && |head| == |nodePtrs| == |weight| == |next| == |prev| == |list.rank| == MAX_NODES
      && |list.order| == blocNode && Ranked(list, blocNode)
      && Chained(list, blocNode, next, prev) && lhead == list.order[0]
      && FreeChain(nodePtrs, free, freelist) && Cells(live, free, blocPtrs)
    }

    /** Every node but NYT and `ex` shares the cell of its weight block. */
    ghost predicate Represented(ex: int)
      reads this
    {
      Stored() && Blocks(Abs(), head, nodePtrs, live, ex)
    }

    /** The coder with only the NYT node in its tree and list. */
    constructor ()
      ensures Represented(NIL) && Abs() == Initial()
    {
      var nils := seq(MAX_NODES, i requires 0 <= i < MAX_NODES => NIL);
      blocNode, blocPtrs, tree, lhead, freelist := 1, 0, 0, 0, NIL;
      loc := Initial().loc;
      left, right, parent := Initial().tree.left, Initial().tree.right, Initial().tree.parent;
      symbol, weight := Initial().tree.symbol, Initial().weight;
      next, prev, head, nodePtrs := nils, nils, nils, nils;
      list, free, live := Initial().list, [], {};
    }

    /** get_ppnode */
    method GetCell() returns (c: int)
      requires FreeChain(nodePtrs, free, freelist) && Cells(live, free, blocPtrs)
      requires freelist == NIL ==> blocPtrs < MAX_NODES
      modifies this`blocPtrs, this`freelist, this`free, this`live
      ensures 0 <= c < MAX_NODES && c !in old(live) && live == old(live) + {c}
      ensures c == if old(freelist) == NIL then old(blocPtrs) else old(freelist)
      ensures FreeChain(nodePtrs, free, freelist) && Cells(live, free, blocPtrs)
    {
      if freelist == NIL {
        c := blocPtrs;
        blocPtrs := blocPtrs + 1;
      } else {
        c := freelist;
        TakeFree(nodePtrs, free, live, blocPtrs);
        freelist := nodePtrs[freelist];
        free := free[1..];
      }
      live := live + {c};
    }

    /** free_ppnode */
    method FreeCell(c: int)
      requires Stored() && c in live
      modifies this`nodePtrs, this`freelist, this`free, this`live
      ensures Stored() && live == old(live) - {c}
      ensures freelist == c && free == [c] + old(free) && nodePtrs == old(nodePtrs)[c := old(freelist)]
    {
      nodePtrs := nodePtrs[c := freelist];
      freelist := c;
      free := [c] + free;
      live := live - {c};
    }

    /** swap: exchanges the places of two nodes in the tree. */
    method Swap(node1: int, node2: int)
      requires Abs().tree.Shaped() && Linked(Abs().tree) && Apart(Abs().tree, node1, node2)
      requires Unrelated(Abs().tree, node1, node2)
      modifies this`left, this`right, this`parent, this`tree
      ensures Abs().tree == SwapSubtrees(old(Abs().tree), node1, node2)
    {
      hide Linked;
      var par1 := parent[node1];
      var par2 := parent[node2];
      SwapParents(Abs().tree, node1, node2);
      if !LeftSibling(Abs().tree, node1, node2) { SwapRows(Abs().tree, node1, node2); }
      if par1 != NIL {
        if left[par1] == node1 {
          left := left[par1 := node2];
        } else {
          right := right[par1 := node2];
        }
      } else {
        tree := node2;
      }
      if par2 != NIL {
        if left[par2] == node2 {
          left := left[par2 := node1];
        } else {
          right := right[par2 := node1];
        }
      } else {
        tree := node1;
      }
      parent := parent[node1 := par2][node2 := par1];
      assert old(LeftSibling(Abs().tree, node1, node2)) ==>
        left == old(left) && right == old(right) && parent == old(parent) && tree == old(tree);
      assert !old(LeftSibling(Abs().tree, node1, node2)) ==> tree == old(Renamed(tree, node1, node2));
      assert !old(LeftSibling(Abs().tree, node1, node2)) ==> left == old(Rows(Abs().tree, left, node1, node2));
      assert !old(LeftSibling(Abs().tree, node1, node2)) ==> right == old(Rows(Abs().tree, right, node1, node2));
    }
  
    /** The first half of swaplist: the two nodes take each other's links. */
    method ExchangeLinks(node1: int, node2: int)
      requires |next| == |prev| == MAX_NODES && 0 <= node1 < MAX_NODES && 0 <= node2 < MAX_NODES && node1 != node2
      requires next[node2] != node2 && next[node1] != node1
      modifies this`next, this`prev
      ensures next == Unlooped(old(next), node1, node2)
      ensures prev == old(prev)[node1 := old(prev[node2])][node2 := old(prev[node1])]
    {
      var par1 := next[node1];
      next := next[node1 := next[node2]];
      next := next[node2 := par1];
      par1 := prev[node1];
      prev := prev[node1 := prev[node2]];
      prev := prev[node2 := par1];
      if next[node1] == node1 {
        next := next[node1 := node2];
      }
      if next[node2] == node2 {
        next := next[node2 := node1];
      }
    }

    /** The node after x points back to x. */
    method PointBack(x: int)
      requires |next| == |prev| == MAX_NODES && 0 <= x < MAX_NODES && (next[x] == NIL || 0 <= next[x] < MAX_NODES)
      modifies this`prev
      ensures prev == Pointed(old(prev), next[x], x, NIL, NIL)
    {
      if next[x] != NIL {
        prev := prev[next[x] := x];
      }
    }

    /** The node before x points on to x. */
    method PointForth(x: int)
      requires |next| == |prev| == MAX_NODES && 0 <= x < MAX_NODES && (prev[x] == NIL || 0 <= prev[x] < MAX_NODES)
      modifies this`next
      ensures next == Pointed(old(next), prev[x], x, NIL, NIL)
    {
      if prev[x] != NIL {
        next := next[prev[x] := x];
      }
    }

    /** swaplist: exchanges the ranks of two nodes. */
    method SwapList(node1: int, node2: int)
      requires Stored() && 0 <= node1 < blocNode && 0 <= node2 < blocNode
      requires node1 != node2 && node1 != lhead && node2 != lhead
      modifies this`next, this`prev, this`list
      ensures Stored() && list == SwapRanks(old(list), node1, node2)
    {
      hide Ranked, FreeChain, Cells, Chained, Blocks, Crossed, SwapRanks;
      SwapListLinks(list, blocNode, next, prev, node1, node2);
      ExchangeLinks(node1, node2);
      PointBack(node1);
      PointBack(node2);
      PointForth(node1);
      PointForth(node2);
      list := SwapRanks(list, node1, node2);
    }
  
    /** The first part of increment: node changes places with its block's leader. */
    method Promotion(node: int, ghost flipped: bool)
      requires Represented(NIL) && Pending(Abs(), flipped, node)
      modifies this`left, this`right, this`parent, this`tree, this`next, this`prev, this`list
      ensures Stored() && Abs() == Promote(old(Abs()), node)
    {
      hide Ranked, Chained, Linked, Sorted, Laid, Labelled, Summed, Blocks, FreeChain, Cells, Apart, Unrelated, Settled;
      hide SwapRanks, SwapSubtrees, LeaderOf;
      Lookup(Abs(), flipped, node, next, prev, head, nodePtrs, live);
      if next[node] != NIL && weight[next[node]] == weight[node] {
        var lnode := nodePtrs[head[node]];
        if lnode != parent[node] {
          Swap(lnode, node);
        }
        SwapList(lnode, node);
      }
    }

    /** The second part: node leaves its block, whose cell passes to the node below or dies. */
    method Leave(node: int, ghost s: Fgk)
      requires Stored() && Promoted(s, Abs(), node) && Blocks(s, head, nodePtrs, live, NIL)
      modifies this`nodePtrs, this`freelist, this`free, this`live
      ensures Stored() && Blocks(Bump(Abs(), node), head, nodePtrs, live, node)
    {
      hide Ranked, Chained, Sorted, Blocks, FreeChain, Cells, Top, Below;
      LookBelow(s, Abs(), node, next, prev, head, nodePtrs, live, free, freelist, blocPtrs, prev[node]);
      if prev[node] != NIL && weight[prev[node]] == weight[node] {
        LeaveBlock(s, Abs(), node, head, nodePtrs, live);
        nodePtrs := nodePtrs[head[node] := prev[node]];
      } else {
        LookBelow(s, Abs(), node, next, prev, head, nodePtrs, live, free, freelist, blocPtrs, NIL);
        ghost var cells := nodePtrs;
        nodePtrs := nodePtrs[head[node] := NIL];
        FreeCell(head[node]);
        LeaveAlone(s, Abs(), node, head, cells, nodePtrs, old(live));
      }
    }

    /** The third part: node, heavier by one, joins the block above it or starts its own. */
    method Join(node: int)
      requires Represented(node) && ReadyToJoin(Abs(), node) && blocNode < MAX_NODES
      modifies this`head, this`nodePtrs, this`blocPtrs, this`freelist, this`free, this`live
      ensures Represented(NIL)
    {
      hide Ranked, Chained, Sorted, Blocks, FreeChain, Cells, Top, Below, Beyond;
      LookAbove(Abs(), node, next, prev, head, nodePtrs, live);
      if next[node] != NIL && weight[next[node]] == weight[node] {
        JoinBlock(Abs(), node, head, nodePtrs, live);
        head := head[node := head[next[node]]];
      } else {
        ghost var live0 := live;
        RoomForCell(Abs(), head, nodePtrs, live, free, freelist, blocPtrs, node);
        var c := GetCell();
        JoinAlone(Abs(), node, head, nodePtrs, live0, c);
        head := head[node := c];
        LiveWrite(nodePtrs, live, free, freelist, blocPtrs, c, node);
        nodePtrs := nodePtrs[head[node] := node];
      }
    }
  
    /** The parts of increment up to the recursive call. */
    method RaiseNode(node: int, ghost flipped: bool)
      requires Represented(NIL) && blocNode < MAX_NODES && Pending(Abs(), flipped, node)
      modifies this
      ensures Represented(NIL) && Abs() == Raise(old(Abs()), node)
    {
      hide Ranked, Chained, Linked, Sorted, Laid, Labelled, Summed, Blocks, FreeChain, Cells, Settled, LeaderOf;
      hide Promote, Top, Promoted, Pending, Below;
      ghost var s := Abs();
      RaiseParts(s, flipped, node);
      Promotion(node, flipped);
      Leave(node, s);
      weight := weight[node := weight[node] + 1];
      Join(node);
    }

    /** The part of increment after the recursive call. */
    method RestoreNode(node: int)
      requires Represented(NIL) && ReadyToRestore(Abs(), node)
      modifies this`next, this`prev, this`list, this`nodePtrs
      ensures Represented(NIL) && Abs() == Restore(old(Abs()), node)
    {
      hide Ranked, Chained, Sorted, Blocks, FreeChain, Cells, Top, JustAbove, SwapRanks;
      RestorePlaces(Abs(), node, next, prev);
      if prev[node] == parent[node] {
        RestoreBlocks(Abs(), node, parent[node], head, nodePtrs, live);
        LiveWrite(nodePtrs, live, free, freelist, blocPtrs, head[node], parent[node]);
        SwapList(node, parent[node]);
        if nodePtrs[head[node]] == node {
          nodePtrs := nodePtrs[head[node] := parent[node]];
        }
      }
    }

    /** increment: the node and its ancestors gain a unit, each after taking its block's lead. */
    method Increment(node: int, ghost flipped: bool)
      requires Represented(NIL) && blocNode < MAX_NODES && (node == NIL || Pending(Abs(), flipped, node))
      modifies this
      ensures Represented(NIL)
      ensures Abs() == if node == NIL then old(Abs()) else HuffmanTree.Increment(old(Abs()), flipped, node)
      decreases if node == NIL then 0 else Above(Abs(), flipped, node) + 1
    {
      if node == NIL {
        return;
      }
      hide Ranked, Chained, Linked, Sorted, Laid, Labelled, Summed, Blocks, FreeChain, Cells, Settled, LeaderOf;
      hide Raise, Above, Incremented, RaisedTo, FlippedAfter, Pending, Restore, ReadyToRestore;
      ghost var s := Abs();
      ghost var f := FlippedAfter(s, flipped, node);
      IncrementUnfolds(s, flipped, node);
      RaiseNode(node, flipped);
      if parent[node] != NIL {
        ghost var a := Abs();
        Increment(parent[node], f);
        RestoreParts(s, flipped, node, a, f, a.tree.parent[node], Abs());
        RestoreNode(node);
      }
    }
  
    /** The part of Huff_addRef that inserts the new inner node into the list, just above NYT, and
        into the block of weight 1. */
    method InsertInner(tnode2: int, ghost n: int)
      requires tnode2 == n + 1 && 0 <= lhead < n && n + 2 <= MAX_NODES
      requires |next| == |prev| == |head| == |weight| == |nodePtrs| == MAX_NODES
      requires FreeChain(nodePtrs, free, freelist) && Cells(live, free, blocPtrs)
      requires freelist == NIL ==> blocPtrs < MAX_NODES
      requires next[lhead] == NIL || (0 <= next[lhead] < n && next[lhead] != lhead)
      modifies this`next, this`prev, this`head, this`weight, this`nodePtrs
      modifies this`blocPtrs, this`freelist, this`free, this`live
      ensures FreeChain(nodePtrs, free, freelist) && Cells(live, free, blocPtrs)
      ensures weight == old(weight)[tnode2 := 1]
      ensures next == old(next)[tnode2 := old(next[lhead])][lhead := tnode2]
      ensures
        var was := old(prev);
        prev == (if old(next[lhead]) != NIL then was[old(next[lhead]) := tnode2] else was)[tnode2 := lhead]
      ensures |head| == MAX_NODES && head == old(head)[tnode2 := head[tnode2]]
      ensures NewHead(n, old(next[lhead]), old(weight), old(head), old(nodePtrs), old(live), head[tnode2], nodePtrs,
        live)
    {
      hide FreeChain, Cells;
      weight := weight[tnode2 := 1];
      next := next[tnode2 := next[lhead]];
      if next[lhead] != NIL {
        prev := prev[next[lhead] := tnode2];
      }
      if next[lhead] != NIL && weight[next[lhead]] == 1 {
        head := head[tnode2 := head[next[lhead]]];
      } else {
        var c := GetCell();
        CellIsLive(live, free, blocPtrs, c);
        head := head[tnode2 := c];
        LiveWrite(nodePtrs, live, free, freelist, blocPtrs, c, tnode2);
        nodePtrs := nodePtrs[head[tnode2] := tnode2];
      }
      next := next[lhead := tnode2];
      prev := prev[tnode2 := lhead];
    }

    /** The same for the new leaf, whose block is that of the new inner node above it. */
    method InsertLeaf(tnode: int)
      requires |next| == |prev| == |head| == |weight| == MAX_NODES
      requires 0 <= tnode < MAX_NODES && 0 <= lhead < MAX_NODES && tnode != lhead
      requires 0 <= next[lhead] < MAX_NODES && next[lhead] != tnode
      modifies this`next, this`prev, this`head, this`weight
      ensures weight == old(weight)[tnode := 1] && head == old(head)[tnode := old(head[next[lhead]])]
      ensures next == old(next)[tnode := old(next[lhead])][lhead := tnode]
      ensures prev == old(prev)[old(next[lhead]) := tnode][tnode := lhead]
    {
      weight := weight[tnode := 1];
      next := next[tnode := next[lhead]];
      prev := prev[next[lhead] := tnode];
      head := head[tnode := head[next[lhead]]];
      next := next[lhead := tnode];
      prev := prev[tnode := lhead];
    }

    /** The part of Huff_addRef that inserts both new nodes into the list. */
    method InsertPair(tnode: int, tnode2: int, ghost n: int)
      requires tnode == n && tnode2 == n + 1 && 0 <= lhead < n && n + 2 <= MAX_NODES
      requires |next| == |prev| == |head| == |weight| == |nodePtrs| == MAX_NODES
      requires FreeChain(nodePtrs, free, freelist) && Cells(live, free, blocPtrs)
      requires freelist == NIL ==> blocPtrs < MAX_NODES
      requires next[lhead] == NIL || (0 <= next[lhead] < n && next[lhead] != lhead)
      modifies this`next, this`prev, this`head, this`weight, this`nodePtrs
      modifies this`blocPtrs, this`freelist, this`free, this`live
      ensures FreeChain(nodePtrs, free, freelist) && Cells(live, free, blocPtrs)
      ensures weight == old(weight)[tnode2 := 1][tnode := 1]
      ensures PairLinked(n, lhead, old(next), old(prev), next, prev)
      ensures |head| == MAX_NODES && head == old(head)[tnode2 := head[tnode2]][tnode := head[tnode2]]
      ensures NewHead(n, old(next[lhead]), old(weight), old(head), old(nodePtrs), old(live), head[tnode2], nodePtrs,
        live)
    {
      hide FreeChain, Cells, NewHead;
      InsertInner(tnode2, n);
      InsertLeaf(tnode);
    }

    /** The part of Huff_addRef that hangs the new nodes into the tree. */
    method HangPair(tnode: int, tnode2: int, ch: Symbol, ghost t: Tree)
      requires t.Shaped() && Linked(t) && t.size + 2 <= MAX_NODES && t.Node(lhead) && !t.Internal(lhead)
      requires tnode == t.size && tnode2 == t.size + 1
      requires Tree(t.size, left, right, parent, symbol, tree) == t
      modifies this`left, this`right, this`parent, this`symbol, this`tree
      ensures Tree(t.size + 2, left, right, parent, symbol, tree) == SplitTree(t, lhead, ch)
    {
      assert lhead != t.root ==> t.Node(t.parent[lhead]);
      hide Linked;
      symbol := symbol[tnode2 := INTERNAL];
      symbol := symbol[tnode := ch];
      left, right := left[tnode := NIL], right[tnode := NIL];
      if parent[lhead] != NIL {
        if left[parent[lhead]] == lhead {
          left := left[parent[lhead] := tnode2];
        } else {
          right := right[parent[lhead] := tnode2];
        }
      } else {
        tree := tnode2;
      }
      right := right[tnode2 := tnode];
      left := left[tnode2 := lhead];
      parent := parent[tnode2 := parent[lhead]];
      parent := parent[lhead := tnode2];
      parent := parent[tnode := tnode2];
    }

    /** The part of Huff_addRef that puts the new nodes into the list and into the tree. */
    method PlacePair(ch: Symbol, ghost t: Tree) returns (tnode2: int)
      requires t.Shaped() && Linked(t) && t.size == blocNode && t.size + 2 <= MAX_NODES
      requires t.Node(lhead) && !t.Internal(lhead) && Tree(t.size, left, right, parent, symbol, tree) == t
      requires |next| == |prev| == |head| == |weight| == |nodePtrs| == MAX_NODES && |loc| == NYT + 1
      requires FreeChain(nodePtrs, free, freelist) && Cells(live, free, blocPtrs)
      requires freelist == NIL ==> blocPtrs < MAX_NODES
      requires next[lhead] == NIL || (0 <= next[lhead] < blocNode && next[lhead] != lhead)
      modifies this
      ensures list == old(list) && lhead == old(lhead) && blocNode == old(blocNode) + 2 && tnode2 == old(blocNode) + 1
      ensures FreeChain(nodePtrs, free, freelist) && Cells(live, free, blocPtrs)
      ensures weight == old(weight)[tnode2 := 1][tnode2 - 1 := 1] && loc == old(loc)[ch := tnode2 - 1]
      ensures PairLinked(t.size, lhead, old(next), old(prev), next, prev)
      ensures |head| == MAX_NODES && head == old(head)[tnode2 := head[tnode2]][tnode2 - 1 := head[tnode2]]
      ensures NewHead(t.size, old(next[lhead]), old(weight), old(head), old(nodePtrs), old(live), head[tnode2],
        nodePtrs, live)
      ensures Tree(blocNode, left, right, parent, symbol, tree) == SplitTree(t, lhead, ch)
    {
      hide Linked, FreeChain, Cells, PairLinked, NewHead, SplitTree;
      var tnode := blocNode;
      blocNode := blocNode + 1;
      tnode2 := blocNode;
      blocNode := blocNode + 1;
      InsertPair(tnode, tnode2, t.size);
      HangPair(tnode, tnode2, ch, t);
      loc := loc[ch := tnode];
    }

    /** The first half of Huff_addRef: a new symbol splits the NYT node. */
    method SplitNyt(ch: Symbol) returns (tnode2: int)
      requires Represented(NIL) && Reachable(Abs()) && loc[ch] == NIL && blocNode + 2 <= MAX_NODES
      modifies this
      ensures Represented(NIL) && Abs() == Split(old(Abs()), ch) && tnode2 == old(blocNode) + 1
    {
      hide Linked, Sorted, Laid, Labelled, Summed, Blocks, FreeChain, Cells, Top, SplitTree, SplitRanking;
      hide Chained, PairLinked, NewHead, Ranked;
      ghost var s := Abs();
      ghost var next0, prev0, head0, cells0, live0 := next, prev, head, nodePtrs, live;
      SplitIsReachable(s, ch);
      SplitLookup(s, next, prev, head, nodePtrs, live, ch);
      RoomForCell(s, head, nodePtrs, live, free, freelist, blocPtrs, NIL);
      tnode2 := PlacePair(ch, s.tree);
      list := SplitRanking(list);
      SplitStored(s, ch, next0, prev0, head0, cells0, live0, Abs(), head[tnode2], next, prev, nodePtrs, live);
    }

    /** Huff_addRef */
    method AddRef(ch: Symbol)
      requires Represented(NIL) && Reachable(Abs())
      modifies this
      ensures Represented(NIL) && Abs() == HuffmanTree.AddRef(old(Abs()), ch)
    {
      hide Ranked, Linked, Sorted, Laid, Labelled, Summed, Blocks, FreeChain, Cells, Chained, Top, SplitTree;
      hide SplitRanking, Pending;
      AddRefUnfolds(Abs(), ch);
      if loc[ch] == NIL {
        var tnode2 := SplitNyt(ch);
        Increment(parent[tnode2], false);
      } else {
        Increment(loc[ch], false);
      }
    }
  }
}
