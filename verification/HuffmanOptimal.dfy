/**
  How good the adaptive code of Shared/huffman.c is: after any history, the tree it has led to spells this
  history in as few bits as any prefix code could.
 */
module HuffmanOptimal {
  import opened Options
  import opened BitStream
  import opened HuffmanTree
  import opened HuffmanCode
  import opened HuffmanSiblings

  // ---- prefix codes have room: Kraft's inequality ----

  /** No word starts another one. */
  predicate PrefixFreeWords(words: seq<Option<seq<bool>>>) {
    forall i, j | 0 <= i < |words| && 0 <= j < |words| && words[i].Some? && words[j].Some? ::
      words[i].value <= words[j].value ==> i == j
  }

  function Lengths(words: seq<Option<seq<bool>>>): (r: seq<int>)
    ensures |r| == |words|
  {
    seq(|words|, i requires 0 <= i < |words| => LengthOf(words[i]))
  }

  function LengthOf(word: Option<seq<bool>>): int {
    if word.Some? then |word.value| else -1
  }

  /** What follows a bit in the words that begin with it */
  function Tails(words: seq<Option<seq<bool>>>, b: bool): (r: seq<Option<seq<bool>>>)
    ensures |r| == |words|
  {
    seq(|words|, i requires 0 <= i < |words| => Tail(words[i], b))
  }

  function Tail(word: Option<seq<bool>>, b: bool): Option<seq<bool>> {
    if word.Some? && word.value != [] && word.value[0] == b then Some(word.value[1..]) else None
  }

  predicate AtMost(len: seq<int>, m: int) {
    forall i | 0 <= i < |len| :: len[i] <= m
  }

  lemma TailsArePrefixFree(words: seq<Option<seq<bool>>>, b: bool, m: nat)
    requires PrefixFreeWords(words) && AtMost(Lengths(words), m) && m > 0
    ensures PrefixFreeWords(Tails(words, b)) && AtMost(Lengths(Tails(words, b)), m - 1)
  {
    var r := Tails(words, b);
    forall i, j | 0 <= i < |r| && 0 <= j < |r| && r[i].Some? && r[j].Some?
      ensures r[i].value <= r[j].value ==> i == j
    {
      assert words[i].value == [b] + r[i].value && words[j].value == [b] + r[j].value;
    }
    forall i | 0 <= i < |r| ensures Lengths(r)[i] <= m - 1 {
      assert Lengths(words)[i] <= m;
    }
  }

  lemma {:induction false} NoWordsTakeNothing(len: seq<int>, m: nat)
    requires forall i | 0 <= i < |len| :: len[i] < 0
    ensures Kraft(len, m) == 0
  {
    if len != [] {
      NoWordsTakeNothing(len[..|len| - 1], m);
    }
  }

  lemma ShareSplits(word: Option<seq<bool>>, m: nat)
    requires m > 0 && word != Some([])
    ensures Share(LengthOf(word), m)
         == Share(LengthOf(Tail(word, false)), m - 1) + Share(LengthOf(Tail(word, true)), m - 1)
  {
  }

  /** The words that begin with 0 and with 1 share what all words take. */
  lemma {:induction false} KraftSplits(words: seq<Option<seq<bool>>>, m: nat)
    requires m > 0 && forall i | 0 <= i < |words| :: words[i] != Some([])
    ensures Kraft(Lengths(words), m)
         == Kraft(Lengths(Tails(words, false)), m - 1) + Kraft(Lengths(Tails(words, true)), m - 1)
  {
    if words != [] {
      hide Share;
      var n := |words| - 1;
      KraftSplits(words[..n], m);
      ShareSplits(words[n], m);
      assert Lengths(words)[..n] == Lengths(words[..n]);
      assert Lengths(Tails(words, false))[..n] == Lengths(Tails(words[..n], false));
      assert Lengths(Tails(words, true))[..n] == Lengths(Tails(words[..n], true));
    }
  }

  /** Kraft's inequality */
  lemma {:induction false} PrefixFreeFits(words: seq<Option<seq<bool>>>, m: nat)
    requires PrefixFreeWords(words) && AtMost(Lengths(words), m)
    ensures Kraft(Lengths(words), m) <= Pow2(m)
    decreases m
  {
    if i :| 0 <= i < |words| && words[i] == Some([]) {
      forall j | 0 <= j < |words| && words[j].Some? ensures j == i {
        assert words[i].value <= words[j].value;
      }
      KraftOfUpdate(Lengths(words), i, -1, m);
      NoWordsTakeNothing(Lengths(words)[i := -1], m);
    } else if m == 0 {
      NoWordsTakeNothing(Lengths(words), m);
    } else {
      hide *;
      KraftSplits(words, m);
      TailsArePrefixFree(words, false, m);
      TailsArePrefixFree(words, true, m);
      PrefixFreeFits(Tails(words, false), m - 1);
      PrefixFreeFits(Tails(words, true), m - 1);
    }
  }

  // ---- the tree as a list ----

  ghost function WeightAt(s: Fgk, i: int): int
    requires Valid(s) && 0 <= i < s.tree.size
  {
    s.weight[s.list.order[i]]
  }

  ghost function UpFrom(s: Fgk, i: int): int
    requires Valid(s) && 0 <= i < s.tree.size
  {
    var p := s.tree.parent[s.list.order[i]];
    if s.tree.Node(p) then s.list.rank[p] else s.tree.size
  }

  /** The nodes of a tree by rank */
  ghost function Listed(s: Fgk): (l: Listing)
    requires Valid(s)
    ensures |l.weight| == |l.up| == s.tree.size
  {
    Listing(seq(s.tree.size, i requires Valid(s) && 0 <= i < s.tree.size => WeightAt(s, i)),
            seq(s.tree.size, i requires Valid(s) && 0 <= i < s.tree.size => UpFrom(s, i)))
  }

  /** The node at a rank */
  ghost function At(s: Fgk, i: int): (x: int)
    requires Valid(s) && 0 <= i < s.tree.size
    ensures s.tree.Node(x) && s.list.rank[x] == i
  {
    s.list.order[i]
  }

  lemma RankOfParent(s: Fgk, x: int)
    requires Valid(s) && s.tree.Node(x) && x != s.tree.root
    ensures s.tree.Node(s.tree.parent[x]) && s.list.rank[x] < s.list.rank[s.tree.parent[x]] < s.tree.size
  {
    hide Labelled, Sorted, Summed, Bottom, Paired;
  }

  /** The root ranks last, and every other node below its parent. */
  lemma RanksBelow(s: Fgk, i: int)
    requires Valid(s) && 0 <= i < s.tree.size
    ensures
      var x := At(s, i);
      && (i == s.tree.size - 1 <==> x == s.tree.root)
      && (x != s.tree.root ==>
            var p := s.tree.parent[x];
            && s.tree.Node(p) && i < s.list.rank[p] == UpFrom(s, i) < s.tree.size
            && s.tree.Internal(p) && s.tree.IsChild(x, p) && At(s, s.list.rank[p]) == p)
  {
    hide Labelled, Sorted, Summed, Bottom, Paired;
    var last := s.list.order[s.tree.size - 1];
    if last != s.tree.root { RankOfParent(s, last); }
    if At(s, i) == s.tree.root { assert s.list.rank[last] == s.list.rank[s.tree.root]; }
  }

  lemma PairsAreSiblings(s: Fgk, i: int)
    requires Valid(s) && 0 <= i < s.tree.size - 1 && i % 2 == 0
    ensures i + 1 < s.tree.size - 1 && UpFrom(s, i) == UpFrom(s, i + 1) < s.tree.size
    ensures WeightAt(s, UpFrom(s, i)) == WeightAt(s, i) + WeightAt(s, i + 1)
  {
    hide Labelled, Sorted, Bottom, Ascending;
    RanksBelow(s, i);
    RanksBelow(s, i + 1);
    assert At(s, i) != At(s, i + 1);
    var p := s.tree.parent[At(s, i)];
    assert s.tree.parent[At(s, i + 1)] == p;
    assert {s.tree.left[p], s.tree.right[p]} == {At(s, i), At(s, i + 1)};
  }

  lemma OnlyPairsAreSiblings(s: Fgk, i: int, j: int)
    requires Valid(s) && 0 <= i < j < s.tree.size - 1 && UpFrom(s, i) == UpFrom(s, j)
    ensures i % 2 == 0 && j == i + 1
  {
    RanksBelow(s, i);
    RanksBelow(s, j);
    var k := if i % 2 == 0 then i else i - 1;
    PairsAreSiblings(s, k);
    RanksBelow(s, k);
    RanksBelow(s, k + 1);
    hide Invariant, WeightAt, UpFrom;
    var p := s.tree.parent[At(s, i)];
    assert At(s, s.list.rank[p]) == p;
    assert s.tree.IsChild(At(s, j), p) && s.tree.IsChild(At(s, k), p) && s.tree.IsChild(At(s, k + 1), p);
  }

  lemma TreeIsSorted(s: Fgk)
    requires Valid(s)
    ensures s.tree.size % 2 == 1 && forall i | 0 <= i < s.tree.size :: 0 <= WeightAt(s, i)
    ensures forall i, j | 0 <= i < j < s.tree.size :: WeightAt(s, i) <= WeightAt(s, j)
  {
    hide Labelled, Summed, Bottom, Ascending;
  }

  lemma ListedIs(s: Fgk)
    requires Valid(s)
    ensures forall i | 0 <= i < s.tree.size ::
      Listed(s).weight[i] == WeightAt(s, i) && Listed(s).up[i] == UpFrom(s, i)
  {
    hide Valid, UpFrom, WeightAt;
  }

  /** The nodes of the tree by rank have the sibling property. */
  lemma TreeHasSiblings(s: Fgk)
    requires Valid(s)
    ensures Siblings(Listed(s))
  {
    var l, n := Listed(s), s.tree.size;
    hide Listed, Valid, UpFrom, WeightAt, At;
    ListedIs(s);
    TreeIsSorted(s);
    forall i | 0 <= i < n - 1 ensures i < l.up[i] < n {
      RanksBelow(s, i);
    }
    forall i, j | 0 <= i < j < n - 1 && i % 2 == 0 && j == i + 1
      ensures l.up[i] == l.up[j] && l.weight[l.up[i]] == l.weight[i] + l.weight[j]
    {
      PairsAreSiblings(s, i);
    }
    forall i, j | 0 <= i < j < n - 1 && l.up[i] == l.up[j] ensures i % 2 == 0 && j == i + 1 {
      OnlyPairsAreSiblings(s, i, j);
    }
  }

  /** The nodes without children are the leaves. */
  lemma LeavesAreOpen(s: Fgk, i: int)
    requires Valid(s) && 0 <= i < s.tree.size
    ensures Open(Listed(s), 0, i) <==> !s.tree.Internal(At(s, i))
  {
    var l := Listed(s);
    hide Labelled, Sorted, Bottom, Ascending, Paired, Summed;
    if s.tree.Internal(At(s, i)) {
      var x := s.tree.left[At(s, i)];
      var j := s.list.rank[x];
      assert At(s, j) == x;
      RanksBelow(s, j);
      assert l.up[j] == i;
    } else {
      forall j | 0 <= j < |l.up| - 1 ensures l.up[j] != i {
        RanksBelow(s, j);
      }
    }
  }

  /** How long the codes of the nodes are, by rank */
  ghost function CodeDepths(s: Fgk): (r: seq<int>)
    requires Valid(s)
    ensures |r| == s.tree.size
  {
    seq(s.tree.size, i requires Valid(s) && 0 <= i < s.tree.size => |Code(s, At(s, i))|)
  }

  lemma CodesAreDepths(s: Fgk)
    requires Valid(s)
    ensures Depths(Listed(s), CodeDepths(s))
  {
    var l, d, n := Listed(s), CodeDepths(s), s.tree.size;
    hide Invariant, UpFrom, At;
    RanksBelow(s, n - 1);
    forall i | 0 <= i < n - 1 ensures 0 <= l.up[i] < n && d[i] == d[l.up[i]] + 1 {
      RanksBelow(s, i);
    }
  }

  // ---- the bits of a history ----

  /** A code word for each byte value, and one for NYT */
  type Words = w: seq<seq<bool>> | |w| == 257 witness seq(257, _ => [])

  /** The bits that the code words of a history take */
  function BitsFor(history: seq<Symbol>, words: Words): nat {
    if history == [] then 0
    else
      var n := |history| - 1;
      BitsFor(history[..n], words) + |words[history[n]]|
  }

  /** The symbols that need a code word: those of the history, and NYT for those that may still come */
  predicate Needed(history: seq<Symbol>, c: int) {
    c == 256 || c in history
  }

  /** No needed word starts another one. */
  predicate PrefixFreeFor(history: seq<Symbol>, words: Words) {
    forall a, b | 0 <= a < 257 && 0 <= b < 257 && Needed(history, a) && Needed(history, b) ::
      words[a] <= words[b] ==> a == b
  }

  /** The code words of the tree */
  ghost function TreeWords(s: Fgk): (r: seq<seq<bool>>)
    requires Valid(s)
    ensures |r| == 257
  {
    seq(257, c requires Valid(s) && 0 <= c < 257 => WordOf(s, c))
  }

  ghost function WordOf(s: Fgk, c: int): seq<bool>
    requires Valid(s) && 0 <= c < 257
  {
    if c < |s.loc| && s.tree.Node(s.loc[c]) then Code(s, s.loc[c]) else []
  }

  /** The word for the node at a rank, if it is a leaf */
  ghost function LeafWord(s: Fgk, words: Words, i: int): Option<seq<bool>>
    requires Valid(s) && 0 <= i < s.tree.size
  {
    var c := s.tree.symbol[At(s, i)];
    if 0 <= c < 257 then Some(words[c]) else None
  }

  ghost function LeafWords(s: Fgk, words: Words): (r: seq<Option<seq<bool>>>)
    requires Valid(s)
    ensures |r| == s.tree.size
  {
    seq(s.tree.size, i requires Valid(s) && 0 <= i < s.tree.size => LeafWord(s, words, i))
  }

  /** A leaf is found under its symbol. */
  lemma LeafAt(s: Fgk, i: int)
    requires Valid(s) && 0 <= i < s.tree.size
    ensures
      At(s, i) < |s.tree.symbol| &&
      var c := s.tree.symbol[At(s, i)];
      && |s.loc| == 257 && (0 <= c < 257 <==> !s.tree.Internal(At(s, i)))
      && (0 <= c < 257 ==> s.loc[c] == At(s, i)) && (c == 256 ==> WeightAt(s, i) == 0)
      && (0 <= c < 256 ==> WeightAt(s, i) > 0)
  {
    hide Linked, Summed, Laid;
    if s.tree.symbol[At(s, i)] == 256 { assert At(s, i) == s.list.order[0]; }
    assert At(s, 0) == s.loc[256];
  }

  lemma LeafFor(s: Fgk, c: int)
    requires Valid(s) && |s.loc| == 257 && 0 <= c < 257 && s.loc[c] != NIL
    ensures s.tree.Node(s.loc[c]) && s.loc[c] < |s.list.rank| && 0 <= s.list.rank[s.loc[c]] < s.tree.size
    ensures s.loc[c] < |s.tree.symbol| && s.tree.symbol[s.loc[c]] == c && At(s, s.list.rank[s.loc[c]]) == s.loc[c]
  {
    hide Linked, Summed, Laid, Sorted;
  }

  // ---- the bits as a cost ----

  ghost function CountAt(s: Fgk, history: seq<Symbol>, i: int): nat
    requires Valid(s) && 0 <= i < s.tree.size
  {
    var c := s.tree.symbol[At(s, i)];
    if 0 <= c < 256 then Count(history, c) else 0
  }

  /** How often the symbols of the leaves occur */
  ghost function Counts(s: Fgk, history: seq<Symbol>): (r: seq<int>)
    requires Valid(s)
    ensures |r| == s.tree.size
  {
    seq(s.tree.size, i requires Valid(s) && 0 <= i < s.tree.size => CountAt(s, history, i))
  }

  lemma {:induction false} CostOfWeight(weight: seq<int>, len: seq<int>, i: nat)
    requires i < |weight| == |len| && len[i] >= 0
    ensures Cost(weight[i := weight[i] + 1], len) == Cost(weight, len) + len[i]
  {
    var n := |len| - 1;
    if i < n {
      CostOfWeight(weight[..n], len[..n], i);
      assert weight[i := weight[i] + 1][..n] == weight[..n][i := weight[i] + 1];
    } else {
      assert weight[i := weight[i] + 1][..n] == weight[..n];
      assert (weight[n] + 1) * len[n] == weight[n] * len[n] + len[n];
    }
  }

  lemma {:induction false} WeightlessIsFree(weight: seq<int>, len: seq<int>)
    requires |weight| == |len| && forall i | 0 <= i < |weight| :: weight[i] == 0
    ensures Cost(weight, len) == 0
  {
    if len != [] {
      WeightlessIsFree(weight[..|len| - 1], len[..|len| - 1]);
    }
  }

  lemma {:induction false} CostAgrees(v: seq<int>, w: seq<int>, len: seq<int>)
    requires |v| == |w| == |len| && forall i | 0 <= i < |len| && len[i] >= 0 :: v[i] == w[i]
    ensures Cost(v, len) == Cost(w, len)
  {
    if len != [] {
      var n := |len| - 1;
      CostAgrees(v[..n], w[..n], len[..n]);
    }
  }

  /** One more symbol counts once more at its leaf. */
  lemma OneMore(s: Fgk, history: seq<Symbol>, c: Symbol)
    requires Valid(s) && |s.loc| == 257 && s.loc[c] != NIL
    ensures s.tree.Node(s.loc[c]) && s.loc[c] < |s.list.rank| && 0 <= s.list.rank[s.loc[c]] < s.tree.size
    ensures
      var r, v := s.list.rank[s.loc[c]], Counts(s, history);
      Counts(s, history + [c]) == v[r := v[r] + 1]
  {
    hide Invariant;
    LeafFor(s, c);
    var r, v := s.list.rank[s.loc[c]], Counts(s, history);
    var h := history + [c];
    assert h[..|h| - 1] == history;
    forall i | 0 <= i < s.tree.size ensures Counts(s, h)[i] == v[r := v[r] + 1][i] {
      LeafAt(s, i);
    }
  }

  /** The bits of a history whose symbols all have leaves */
  lemma {:induction false} CostOfHistory(s: Fgk, history: seq<Symbol>, words: Words)
    requires Valid(s) && |s.loc| == 257 && forall k | 0 <= k < |history| :: s.loc[history[k]] != NIL
    ensures Cost(Counts(s, history), Lengths(LeafWords(s, words))) == BitsFor(history, words)
  {
    hide Invariant, Cost;
    var len := Lengths(LeafWords(s, words));
    if history == [] {
      WeightlessIsFree(Counts(s, history), len);
    } else {
      var n := |history| - 1;
      var before, c := history[..n], history[n];
      CostOfHistory(s, before, words);
      OneMore(s, before, c);
      LeafFor(s, c);
      assert before + [c] == history;
      CostOfWeight(Counts(s, before), len, s.list.rank[s.loc[c]]);
    }
  }

  lemma {:induction false} CountIsPositive(history: seq<Symbol>, c: Symbol)
    ensures Count(history, c) > 0 <==> c in history
  {
    if history != [] {
      var n := |history| - 1;
      CountIsPositive(history[..n], c);
      assert history == history[..n] + [history[n]];
    }
  }

  /** The weights are the counts. */
  lemma CostOfBits(s: Fgk, history: seq<Symbol>, words: Words)
    requires Valid(s) && Counted(s, history)
    ensures Cost(Listed(s).weight, Lengths(LeafWords(s, words))) == BitsFor(history, words)
  {
    hide Invariant, Cost;
    var len := Lengths(LeafWords(s, words));
    forall k | 0 <= k < |history| ensures s.loc[history[k]] != NIL {
      CountIsPositive(history, history[k]);
    }
    CostOfHistory(s, history, words);
    forall i | 0 <= i < s.tree.size && len[i] >= 0 ensures Counts(s, history)[i] == Listed(s).weight[i] {
      LeafAt(s, i);
    }
    CostAgrees(Listed(s).weight, Counts(s, history), len);
  }

  lemma WordsStand(s: Fgk, words: Words)
    requires Valid(s)
    ensures Stands(Listed(s), 0, Lengths(LeafWords(s, words)))
  {
    hide Invariant, Open;
    forall i | 0 <= i < s.tree.size
      ensures Lengths(LeafWords(s, words))[i] >= 0 <==> Open(Listed(s), 0, i)
    {
      LeavesAreOpen(s, i);
      LeafAt(s, i);
    }
  }

  lemma NeededArePrefixFree(s: Fgk, history: seq<Symbol>, words: Words)
    requires Valid(s) && Counted(s, history) && PrefixFreeFor(history, words)
    ensures PrefixFreeWords(LeafWords(s, words))
  {
    hide Invariant;
    var r := LeafWords(s, words);
    forall i, j | 0 <= i < |r| && 0 <= j < |r| && r[i].Some? && r[j].Some?
      ensures r[i].value <= r[j].value ==> i == j
    {
      LeafIsNeeded(s, history, i);
      LeafIsNeeded(s, history, j);
      LeafAt(s, i);
      LeafAt(s, j);
    }
  }

  lemma LeafIsNeeded(s: Fgk, history: seq<Symbol>, i: int)
    requires Valid(s) && Counted(s, history) && 0 <= i < s.tree.size && 0 <= s.tree.symbol[At(s, i)] < 257
    ensures Needed(history, s.tree.symbol[At(s, i)])
  {
    hide Invariant;
    LeafAt(s, i);
    if s.tree.symbol[At(s, i)] < 256 {
      CountIsPositive(history, s.tree.symbol[At(s, i)]);
    }
  }

  function Longest(len: seq<int>): (m: nat)
    ensures AtMost(len, m)
  {
    if len == [] then 0
    else
      var n := |len| - 1;
      var m := Longest(len[..n]);
      if len[n] > m then len[n] else m
  }

  /** The code words of the tree are as long as their leaves are deep. */
  lemma TreeWordsAreDepths(s: Fgk)
    requires Valid(s)
    ensures Lengths(LeafWords(s, TreeWords(s))) == Standing(Listed(s), CodeDepths(s), 0)
  {
    hide Invariant, Open;
    forall i | 0 <= i < s.tree.size
      ensures Lengths(LeafWords(s, TreeWords(s)))[i] == Standing(Listed(s), CodeDepths(s), 0)[i]
    {
      LeavesAreOpen(s, i);
      LeafAt(s, i);
    }
  }

  /** The code of a tree is prefix free. */
  lemma TreeIsPrefixFree(history: seq<Symbol>)
    ensures PrefixFreeFor(history, TreeWords(Run(history)))
  {
    var s := Run(history);
    RunIsCounted(history);
    hide Valid, Run, Counted, Needed;
    forall a, b | 0 <= a < 257 && 0 <= b < 257 && Needed(history, a) && Needed(history, b)
      ensures TreeWords(s)[a] <= TreeWords(s)[b] ==> a == b
    {
      if TreeWords(s)[a] <= TreeWords(s)[b] { WordsDiffer(s, history, a, b); }
    }
  }

  lemma WordsDiffer(s: Fgk, history: seq<Symbol>, a: int, b: int)
    requires Valid(s) && Counted(s, history) && 0 <= a < 257 && 0 <= b < 257
    requires Needed(history, a) && Needed(history, b) && TreeWords(s)[a] <= TreeWords(s)[b]
    ensures a == b
  {
    hide Invariant, Code, Count, Counted, Needed;
    NeededHasLeaf(s, history, a);
    NeededHasLeaf(s, history, b);
    var x, y := TreeWords(s)[a], TreeWords(s)[b];
    assert y == x + y[|x|..];
    PrefixFree(s, s.loc[a], s.loc[b], y[|x|..]);
  }

  lemma NeededHasLeaf(s: Fgk, history: seq<Symbol>, c: int)
    requires Valid(s) && Counted(s, history) && 0 <= c < 257 && Needed(history, c)
    ensures |s.loc| == 257 && s.tree.Node(s.loc[c]) && s.tree.symbol[s.loc[c]] == c && !s.tree.Internal(s.loc[c])
  {
    hide Invariant;
    NytHasLeaf(s);
    if c < 256 {
      CountIsPositive(history, c);
      LeafFor(s, c);
    }
  }

  /** After any history no prefix code, with a word for each symbol of the history and one to announce others,
      spells this history in fewer bits than the code of the tree. */
  lemma TreeIsOptimal(history: seq<Symbol>, words: Words)
    requires PrefixFreeFor(history, words)
    ensures BitsFor(history, TreeWords(Run(history))) <= BitsFor(history, words)
  {
    hide *;
    var s := Run(history);
    RunIsCounted(history);
    var len := Lengths(LeafWords(s, words));
    CostOfBits(s, history, words);
    CostOfBits(s, history, TreeWords(s));
    TreeWordsAreDepths(s);
    TreeHasSiblings(s);
    CodesAreDepths(s);
    WordsStand(s, words);
    NeededArePrefixFree(s, history, words);
    WordsFit(LeafWords(s, words), Longest(len));
    SiblingsAreOptimal(Listed(s), CodeDepths(s), len, Longest(len));
  }

  lemma RunIsCounted(history: seq<Symbol>)
    ensures Valid(Run(history)) && Counted(Run(history), history)
  {
  }

  lemma WordsFit(words: seq<Option<seq<bool>>>, m: nat)
    requires PrefixFreeWords(words) && AtMost(Lengths(words), m)
    ensures Fits(Lengths(words), m)
  {
    PrefixFreeFits(words, m);
  }

  /** The first byte is sent as it is, its highest bit first. */
  lemma FirstIsPlain(c: Symbol)
    ensures
      var bits := Transmit(Run([]), c);
      |bits| == 8 && forall k | 0 <= k < 8 :: bits[k] <==> Bit(c, 7 - k)
  {
    hide Run, Transmit, Reachable, Counted, Bit, ByteBits;
    EmptyHistory(c);
    PlainBits(c);
  }

  lemma PlainBits(c: Symbol)
    ensures forall k | 0 <= k < 8 :: ByteBits(c)[k] <==> Bit(c, 7 - k)
  {
    hide Bit;
    forall k | 0 <= k < 8 ensures ByteBits(c)[k] <==> Bit(c, 7 - k) {
      HighFirstBit(c, 8, k);
    }
  }

  /** From then on a turn to the left announces a new byte, and one to the right repeats the first. */
  lemma SecondIsShort(c: Symbol, d: Symbol)
    ensures Transmit(Run([c]), c) == [true]
    ensures c != d ==> Transmit(Run([c]), d) == [false] + Transmit(Run([]), d)
  {
    var s := Run([c]);
    TreeOfOne(c);
    hide Invariant, AddRef, Run;
    assert Code(s, 2) == [];
    assert Code(s, 1) == [true];
    assert Code(s, 0) == [false];
    if c != d {
      assert Transmit(s, d) == [false] + ByteBits(d);
      EmptyHistory(d);
    }
  }

  lemma EmptyHistory(d: Symbol)
    ensures Transmit(Run([]), d) == ByteBits(d)
  {
    var s := Run([]);
    assert s == Initial();
    assert Code(s, 0) == [];
  }

  lemma TreeOfOne(c: Symbol)
    ensures
      var s := Run([c]);
      && s.tree.Shaped() && s.tree.size == 3 && s.tree.root == 2 && |s.loc| == 257
      && s.tree.parent[0] == s.tree.parent[1] == 2 && s.tree.right[2] == 1 && s.tree.left[2] == 0
      && s.loc[c] == 1 && s.loc[256] == 0 && forall d: Symbol | d != c :: s.loc[d] == NIL
  {
    assert [c][..0] == [];
    InitialIsReachable();
    assert Run([c]) == AddRef(Initial(), c);
    hide Invariant;
  }

  lemma RunOneMore(history: seq<Symbol>, c: Symbol)
    ensures Run(history + [c]) == AddRef(Run(history), c)
  {
    hide AddRef, Reachable, Counted;
    var h := history + [c];
    assert h[..|h| - 1] == history;
  }

  /** Each byte is sent with the tree that the bytes before it have led to. */
  lemma {:induction false} EncodeGrows(history: seq<Symbol>, m: seq<Symbol>, c: Symbol)
    ensures Encode(Run(history), m + [c]) == Encode(Run(history), m) + Transmit(Run(history + m), c)
    decreases |m|
  {
    hide Run, AddRef, Transmit, Invariant, Counted;
    if m == [] {
      assert history + m == history && (m + [c])[1..] == [];
      assert Encode(Run(history), m + [c]) == Transmit(Run(history), c) + [];
    } else {
      RunOneMore(history, m[0]);
      EncodeGrows(history + [m[0]], m[1..], c);
      assert (m + [c])[1..] == m[1..] + [c] && history + [m[0]] + m[1..] == history + m;
    }
  }
}
