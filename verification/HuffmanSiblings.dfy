/**
  Why the list that Shared/huffman.c keeps its nodes in makes a good code: a binary tree whose nodes can be
  listed by weight in pairs of siblings is an optimal code (Gallager's theorem).
 */
module HuffmanSiblings {
  import opened BitStream

  /** A binary tree by the places of its nodes in a list: their weights, and the places of their parents. The
      root is last. */
  datatype Listing = Listing(weight: seq<int>, up: seq<int>)

  /** Weights do not decrease, siblings are next to each other and weigh as much as their parent, which comes
      later. */
  ghost predicate Siblings(l: Listing) {
    var n := |l.weight|;
    && n % 2 == 1 && |l.up| == n
    && (forall i | 0 <= i < n :: 0 <= l.weight[i])
    && (forall i, j | 0 <= i < j < n :: l.weight[i] <= l.weight[j])
    && (forall i | 0 <= i < n - 1 :: i < l.up[i] < n)
    && (forall i, j | 0 <= i < j < n - 1 && i % 2 == 0 && j == i + 1 ::
          l.up[i] == l.up[j] && l.weight[l.up[i]] == l.weight[i] + l.weight[j])
    && (forall i, j | 0 <= i < j < n - 1 && l.up[i] == l.up[j] :: i % 2 == 0 && j == i + 1)
  }

  // ---- lengths of code words: one for each place, less than 0 where there is none ----

  function Spend(weight: int, len: int): int {
    if len < 0 then 0 else weight * len
  }

  /** The bits that are spent on code words of some lengths, each used as often as its place weighs */
  function Cost(weight: seq<int>, len: seq<int>): int
    requires |weight| == |len|
  {
    if len == [] then 0
    else var n := |len| - 1; Cost(weight[..n], len[..n]) + Spend(weight[n], len[n])
  }

  /** The part of the 2^m words of m bits that begin with a code word of some length */
  function Share(len: int, m: nat): nat {
    if 0 <= len <= m then Pow2(m - len) else 0
  }

  function Kraft(len: seq<int>, m: nat): nat {
    if len == [] then 0 else var n := |len| - 1; Kraft(len[..n], m) + Share(len[n], m)
  }

  /** There is room for code words of these lengths, none longer than m. */
  ghost predicate Fits(len: seq<int>, m: nat) {
    (forall i | 0 <= i < |len| :: len[i] <= m) && Kraft(len, m) <= Pow2(m)
  }

  lemma {:induction false} CostOfUpdate(weight: seq<int>, len: seq<int>, i: nat, v: int)
    requires i < |weight| == |len|
    ensures Cost(weight, len[i := v]) == Cost(weight, len) - Spend(weight[i], len[i]) + Spend(weight[i], v)
  {
    hide Spend;
    var n := |len| - 1;
    if i < n {
      CostOfUpdate(weight[..n], len[..n], i, v);
      assert len[i := v][..n] == len[..n][i := v];
    } else {
      assert len[i := v][..n] == len[..n];
    }
  }

  lemma {:induction false} KraftOfUpdate(len: seq<int>, i: nat, v: int, m: nat)
    requires i < |len|
    ensures Kraft(len[i := v], m) == Kraft(len, m) - Share(len[i], m) + Share(v, m)
  {
    hide Share;
    var n := |len| - 1;
    if i < n {
      KraftOfUpdate(len[..n], i, v, m);
      assert len[i := v][..n] == len[..n][i := v];
    } else {
      assert len[i := v][..n] == len[..n];
    }
  }

  /** If no word has m bits, half as many words of m - 1 bits are taken. */
  lemma {:induction false} KraftHalves(len: seq<int>, m: nat)
    requires m > 0 && forall i | 0 <= i < |len| :: len[i] < m
    ensures Kraft(len, m) == 2 * Kraft(len, m - 1)
  {
    if len != [] {
      KraftHalves(len[..|len| - 1], m);
    }
  }

  lemma FitsInLess(len: seq<int>, m: nat)
    requires Fits(len, m) && m > 0 && forall i | 0 <= i < |len| :: len[i] < m
    ensures Fits(len, m - 1)
  {
    KraftHalves(len, m);
  }

  /** If only one word has m bits, it can do with one bit less. */
  lemma LongestIsShortened(len: seq<int>, m: nat, i: nat)
    requires Fits(len, m) && m > 0 && i < |len| && len[i] == m
    requires forall j | 0 <= j < |len| && j != i :: len[j] < m
    ensures Fits(len[i := m - 1], m - 1)
  {
    var rest := len[i := -1];
    KraftOfUpdate(len, i, -1, m);
    KraftHalves(rest, m);
    KraftOfUpdate(rest, i, m - 1, m - 1);
    assert rest[i := m - 1] == len[i := m - 1];
  }

  /** Giving the longer of two words to the lighter place does not cost more. */
  lemma ExchangeIsNoWorse(weight: seq<int>, len: seq<int>, a: nat, b: nat, m: nat)
    requires a < b < |weight| == |len| && weight[a] <= weight[b] && 0 <= len[a] <= len[b] && Fits(len, m)
    ensures
      var r := len[a := len[b]][b := len[a]];
      Fits(r, m) && Cost(weight, r) <= Cost(weight, len)
  {
    hide Spend, Share, Cost, Kraft;
    var first := len[a := len[b]];
    CostOfUpdate(weight, len, a, len[b]);
    CostOfUpdate(weight, first, b, len[a]);
    KraftOfUpdate(len, a, len[b], m);
    KraftOfUpdate(first, b, len[a], m);
    SpentOnBoth(weight[a], weight[b], len[a], len[b]);
  }

  lemma SpentOnBoth(v: int, w: int, a: int, b: int)
    requires v <= w && 0 <= a <= b
    ensures Spend(v, b) + Spend(w, a) <= Spend(v, a) + Spend(w, b)
  {
    assert (w - v) * (b - a) == w * b - w * a - v * b + v * a;
    assert (w - v) * (b - a) >= 0;
  }

  // ---- merging the pairs, the lightest first ----

  /** When the places before a have been merged, the node at i stands for all that has been merged into it. */
  ghost predicate Open(l: Listing, a: int, i: int)
    requires |l.up| == |l.weight|
  {
    a <= i < |l.up| && forall j | 0 <= j < |l.up| - 1 && l.up[j] == i :: j < a
  }

  /** There are words for just these nodes. */
  ghost predicate Stands(l: Listing, a: int, len: seq<int>) {
    |len| == |l.up| == |l.weight| && forall i | 0 <= i < |len| :: len[i] >= 0 <==> Open(l, a, i)
  }

  /** Merging a pair replaces it by its parent. */
  lemma MergeOpens(l: Listing, a: nat)
    requires Siblings(l) && a % 2 == 0 && a + 1 < |l.up|
    ensures
      var p := l.up[a];
      && a + 2 < |l.up| && l.up[a + 1] == p && a + 1 < p < |l.up|
      && Open(l, a, a) && Open(l, a, a + 1) && !Open(l, a, p) && Open(l, a + 2, p)
      && forall i | i != p && i != a && i != a + 1 :: Open(l, a + 2, i) <==> Open(l, a, i)
  {
    var p := l.up[a];
    assert l.up[a + 1] == p;
    forall i | i != p && i != a && i != a + 1 ensures Open(l, a + 2, i) <==> Open(l, a, i) {
      if Open(l, a + 2, i) {
        forall j | 0 <= j < |l.up| - 1 && l.up[j] == i ensures j < a {
          assert j != a && j != a + 1;
        }
      }
    }
  }

  /** The words of two siblings of the same length become one word, shorter by one bit. */
  function Merged(l: Listing, a: nat, len: seq<int>): (r: seq<int>)
    requires a + 1 < |len| == |l.up| && 0 <= l.up[a] < |len|
    ensures |r| == |len|
  {
    len[a := -1][a + 1 := -1][l.up[a] := len[a] - 1]
  }

  lemma SpentOnParent(v: int, w: int, n: int)
    requires n > 0
    ensures Spend(v, n) + Spend(w, n) == Spend(v + w, n - 1) + v + w
  {
    assert (v + w) * (n - 1) == v * n + w * n - v - w;
  }

  lemma MergedStands(l: Listing, a: nat, len: seq<int>)
    requires Siblings(l) && a % 2 == 0 && a + 1 < |l.up| && Stands(l, a, len) && len[a] > 0
    ensures 0 <= l.up[a] < |len| && Stands(l, a + 2, Merged(l, a, len))
  {
    MergeOpens(l, a);
    hide Siblings, Open;
  }

  lemma MergedCosts(l: Listing, a: nat, len: seq<int>)
    requires Siblings(l) && a % 2 == 0 && a + 1 < |l.up| == |len|
    requires len[a] == len[a + 1] > 0 && 0 <= l.up[a] < |len| && len[l.up[a]] < 0
    ensures Cost(l.weight, Merged(l, a, len)) == Cost(l.weight, len) - l.weight[a] - l.weight[a + 1]
  {
    hide Siblings, Cost, Spend;
    var p, n := l.up[a], len[a];
    ParentWeighs(l, a);
    CostOfThree(l.weight, len, a, a + 1, p, n - 1);
    NothingSpent(l.weight[p], len[p]);
    SpentOnParent(l.weight[a], l.weight[a + 1], n);
  }

  lemma CostOfThree(weight: seq<int>, len: seq<int>, a: nat, b: nat, p: nat, n: int)
    requires a < b < p < |len| == |weight|
    ensures Cost(weight, len[a := -1][b := -1][p := n]) ==
      Cost(weight, len) - Spend(weight[a], len[a]) - Spend(weight[b], len[b]) - Spend(weight[p], len[p])
      + Spend(weight[p], n)
  {
    hide *;
    var first := len[a := -1];
    var second := first[b := -1];
    CostOfUpdate(weight, len, a, -1);
    CostOfUpdate(weight, first, b, -1);
    CostOfUpdate(weight, second, p, n);
    NothingSpent(weight[a], -1);
    NothingSpent(weight[b], -1);
  }

  lemma NothingSpent(w: int, n: int)
    requires n < 0
    ensures Spend(w, n) == 0
  {
  }

  lemma MergedFits(l: Listing, a: nat, len: seq<int>, m: nat)
    requires a + 1 < |l.up| == |len| && a + 1 < l.up[a] < |len|
    requires len[a] == len[a + 1] > 0 && len[l.up[a]] < 0 && Fits(len, m)
    ensures Fits(Merged(l, a, len), m)
  {
    hide Kraft;
    var first := len[a := -1];
    KraftOfUpdate(len, a, -1, m);
    KraftOfUpdate(first, a + 1, -1, m);
    KraftOfUpdate(first[a + 1 := -1], l.up[a], len[a] - 1, m);
  }

  lemma ParentWeighs(l: Listing, a: nat)
    requires Siblings(l) && a % 2 == 0 && a + 1 < |l.up|
    ensures a + 2 < |l.up| == |l.weight| && a + 1 < l.up[a] < |l.up|
    ensures l.weight[l.up[a]] == l.weight[a] + l.weight[a + 1]
  {
    assert a + 1 < |l.up| - 1;
    assert l.up[a] == l.up[a + 1];
  }

  /** The word of the node at a, or that of a later one, becomes the longer one of both. */
  lemma Lengthened(l: Listing, a: int, len: seq<int>, b: nat, i: nat, m: nat) returns (r: seq<int>)
    requires Siblings(l) && Stands(l, a, len) && Fits(len, m)
    requires b <= i < |len| && 0 <= len[b] && len[i] == m
    ensures Stands(l, a, r) && Fits(r, m) && Cost(l.weight, r) <= Cost(l.weight, len)
    ensures r[b] == m && forall j | 0 <= j < b :: r[j] == len[j]
  {
    hide Open, Kraft, Cost;
    if i == b {
      r := len;
    } else {
      ExchangeIsNoWorse(l.weight, len, b, i, m);
      r := len[b := len[i]][i := len[b]];
    }
  }

  lemma TwoNeedBits(len: seq<int>, a: nat, m: nat)
    requires a + 1 < |len| && len[a] == len[a + 1] == m && Fits(len, m)
    ensures m > 0
  {
    hide Kraft;
    KraftOfUpdate(len, a, -1, m);
    KraftOfUpdate(len[a := -1], a + 1, -1, m);
  }

  lemma FirstAreOpen(l: Listing, a: nat, len: seq<int>)
    requires Siblings(l) && a % 2 == 0 && a + 1 < |l.up| && Stands(l, a, len)
    ensures 0 <= len[a] && 0 <= len[a + 1] && forall i | 0 <= i < |len| && len[i] >= 0 :: a <= i
    ensures 0 <= l.up[a] < |len| && len[l.up[a]] < 0
  {
    MergeOpens(l, a);
  }

  /** At no more cost the two lightest nodes have words of the same length, which none exceeds. */
  lemma {:induction false} LightestAreLongest(l: Listing, a: nat, len: seq<int>, m: nat) returns (r: seq<int>, n: nat)
    requires Siblings(l) && a % 2 == 0 && a + 1 < |l.up| && Stands(l, a, len) && Fits(len, m)
    ensures Stands(l, a, r) && Fits(r, n) && r[a] == r[a + 1] == n > 0
    ensures Cost(l.weight, r) <= Cost(l.weight, len)
    decreases m
  {
    hide Siblings, Open, Kraft, Cost;
    FirstAreOpen(l, a, len);
    if forall i | 0 <= i < |len| :: len[i] < m {
      FitsInLess(len, m);
      r, n := LightestAreLongest(l, a, len, m - 1);
    } else {
      var i :| 0 <= i < |len| && len[i] == m;
      var first := Lengthened(l, a, len, a, i, m);
      FirstAreOpen(l, a, first);
      if forall j | 0 <= j < |len| && j != a :: first[j] < m {
        var second := Shortened(l, a, first, m);
        r, n := LightestAreLongest(l, a, second, m - 1);
      } else {
        var j :| 0 <= j < |len| && j != a && first[j] == m;
        r := Lengthened(l, a, first, a + 1, j, m);
        n := m;
        TwoNeedBits(r, a, m);
      }
    }
  }

  lemma Shortened(l: Listing, a: nat, len: seq<int>, m: nat) returns (r: seq<int>)
    requires Siblings(l) && Stands(l, a, len) && Fits(len, m)
    requires a + 1 < |len| && len[a] == m > len[a + 1] >= 0 && forall j | 0 <= j < |len| && j != a :: len[j] < m
    ensures m > 0 && Stands(l, a, r) && Fits(r, m - 1) && Cost(l.weight, r) <= Cost(l.weight, len)
  {
    hide Open, Kraft, Cost;
    r := len[a := m - 1];
    LongestIsShortened(len, m, a);
    CostOfUpdate(l.weight, len, a, m - 1);
    SpentOnLess(l.weight[a], m);
  }

  lemma SpentOnLess(w: int, m: nat)
    requires w >= 0 && m > 0
    ensures Spend(w, m - 1) <= Spend(w, m)
  {
    assert w * m == w * (m - 1) + w;
  }

  /** The weights from a place on, the last one excepted */
  function Above(weight: seq<int>, a: nat): int
    requires a < |weight|
    decreases |weight| - a
  {
    if a == |weight| - 1 then 0 else weight[a] + Above(weight, a + 1)
  }

  lemma {:induction false} CostIsPositive(weight: seq<int>, len: seq<int>)
    requires |weight| == |len| && forall i | 0 <= i < |weight| :: weight[i] >= 0
    ensures Cost(weight, len) >= 0
  {
    if len != [] {
      var n := |len| - 1;
      CostIsPositive(weight[..n], len[..n]);
      assert len[n] >= 0 ==> weight[n] * len[n] >= 0;
    }
  }

  /** No words cost less than all weights but the root's together. */
  lemma {:induction false} CostsAtLeast(l: Listing, a: nat, len: seq<int>, m: nat)
    requires Siblings(l) && a % 2 == 0 && a < |l.up| && Stands(l, a, len) && Fits(len, m)
    ensures Above(l.weight, a) <= Cost(l.weight, len)
    decreases |l.up| - a
  {
    hide Open, Kraft, Cost, Stands, Fits;
    if a == |l.up| - 1 {
      assert |len| == |l.up| by { hide *; StandsFor(l, a, len); }
      CostIsPositive(l.weight, len);
    } else {
      var r, n := MergeIsNoWorse(l, a, len, m);
      CostsAtLeast(l, a + 2, r, n);
    }
  }

  lemma StandsFor(l: Listing, a: int, len: seq<int>)
    requires Stands(l, a, len)
    ensures |len| == |l.up| == |l.weight|
  {
  }

  lemma MergeIsNoWorse(l: Listing, a: nat, len: seq<int>, m: nat) returns (r: seq<int>, n: nat)
    requires Siblings(l) && a % 2 == 0 && a + 1 < |l.up| && Stands(l, a, len) && Fits(len, m)
    ensures a + 2 < |l.up| && Stands(l, a + 2, r) && Fits(r, n)
    ensures Cost(l.weight, r) + l.weight[a] + l.weight[a + 1] <= Cost(l.weight, len)
  {
    hide *;
    StandsFor(l, a, len);
    r, n := LightestAreLongest(l, a, len, m);
    StandsFor(l, a, r);
    FirstAreOpen(l, a, r);
    ParentWeighs(l, a);
    MergedStands(l, a, r);
    MergedCosts(l, a, r);
    MergedFits(l, a, r, n);
    r := Merged(l, a, r);
    StandsFor(l, a + 2, r);
  }

  // ---- what the tree itself costs ----

  /** How deep the nodes are */
  ghost predicate Depths(l: Listing, depth: seq<int>) {
    && |depth| == |l.up| == |l.weight| && |depth| > 0 && depth[|depth| - 1] == 0
    && (forall i | 0 <= i < |depth| :: 0 <= depth[i])
    && (forall i | 0 <= i < |depth| - 1 :: 0 <= l.up[i] < |depth| && depth[i] == depth[l.up[i]] + 1)
  }

  /** The depths of the nodes that are left when the places before a have been merged */
  ghost function Standing(l: Listing, depth: seq<int>, a: int): (r: seq<int>)
    requires |depth| == |l.up| == |l.weight|
    ensures |r| == |depth|
  {
    seq(|depth|, i requires 0 <= i < |depth| => if Open(l, a, i) then depth[i] else -1)
  }

  /** The tree costs exactly all weights but the root's together. */
  lemma {:induction false} TreeCosts(l: Listing, depth: seq<int>, a: nat)
    requires Siblings(l) && Depths(l, depth) && a % 2 == 0 && a < |l.up|
    ensures Cost(l.weight, Standing(l, depth, a)) == Above(l.weight, a)
    decreases |l.up| - a
  {
    hide *;
    if a == |l.up| - 1 {
      RootIsFree(l, depth, a);
    } else {
      DepthsMerge(l, depth, a);
      TreeCosts(l, depth, a + 2);
      AboveOfTwo(l.weight, a);
      MergedCosts(l, a, Standing(l, depth, a));
    }
  }

  lemma AboveOfTwo(weight: seq<int>, a: nat)
    requires a + 2 < |weight|
    ensures Above(weight, a) == weight[a] + weight[a + 1] + Above(weight, a + 2)
  {
  }

  lemma DepthsMerge(l: Listing, depth: seq<int>, a: nat)
    requires Siblings(l) && Depths(l, depth) && a % 2 == 0 && a < |l.up| - 1
    ensures a + 2 < |l.up| == |l.weight| == |depth| && a + 1 < l.up[a] < |l.up|
    ensures
      var len := Standing(l, depth, a);
      && len[a] == len[a + 1] > 0 && len[l.up[a]] < 0
      && Standing(l, depth, a + 2) == Merged(l, a, len)
  {
    MergeOpens(l, a);
    hide Open;
  }

  lemma {:induction false} NoneIsFree(weight: seq<int>, len: seq<int>)
    requires |weight| == |len| && forall i | 0 <= i < |len| :: len[i] <= 0
    ensures Cost(weight, len) == 0
  {
    if len != [] {
      NoneIsFree(weight[..|len| - 1], len[..|len| - 1]);
    }
  }

  lemma RootIsFree(l: Listing, depth: seq<int>, a: nat)
    requires Siblings(l) && Depths(l, depth) && a == |l.up| - 1
    ensures Cost(l.weight, Standing(l, depth, a)) == Above(l.weight, a) == 0
  {
    NoneIsFree(l.weight, Standing(l, depth, a));
  }

  /** A tree with the sibling property is an optimal code. */
  lemma SiblingsAreOptimal(l: Listing, depth: seq<int>, len: seq<int>, m: nat)
    requires Siblings(l) && Depths(l, depth) && Stands(l, 0, len) && Fits(len, m)
    ensures Cost(l.weight, Standing(l, depth, 0)) <= Cost(l.weight, len)
  {
    TreeCosts(l, depth, 0);
    CostsAtLeast(l, 0, len, m);
  }
}
