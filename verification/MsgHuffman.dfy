/**
  MSG_initHuffman of Shared/msg.c: both sides train the same fixed tree.
 */
module MsgHuffman {
  import opened HuffmanTree
  import opened HuffmanList
  import opened HuffmanCoder
  import opened MsgCode

  type Positive = n: int | n > 0 witness 1

  /** How often each byte value is taken to occur (msg_hData). */
  const FREQUENCIES: seq<Positive> := [
    250315, 41193, 6292, 7106, 3730, 3750, 6110, 23283, 33317, 6950, 7838, 9714, 9257, 17259, 3949, 1778,
    8288, 1604, 1590, 1663, 1100, 1213, 1238, 1134, 1749, 1059, 1246, 1149, 1273, 4486, 2805, 3472,
    21819, 1159, 1670, 1066, 1043, 1012, 1053, 1070, 1726, 888, 1180, 850, 960, 780, 1752, 3296,
    10630, 4514, 5881, 2685, 4650, 3837, 2093, 1867, 2584, 1949, 1972, 940, 1134, 1788, 1670, 1206,
    5719, 6128, 7222, 6654, 3710, 3795, 1492, 1524, 2215, 1140, 1355, 971, 2180, 1248, 1328, 1195,
    1770, 1078, 1264, 1266, 1168, 965, 1155, 1186, 1347, 1228, 1529, 1600, 2617, 2048, 2546, 3275,
    2410, 3585, 2504, 2800, 2675, 6146, 3663, 2840, 14253, 3164, 2221, 1687, 3208, 2739, 3512, 4796,
    4091, 3515, 5288, 4016, 7937, 6031, 5360, 3924, 4892, 3743, 4566, 4807, 5852, 6400, 6225, 8291,
    23243, 7838, 7073, 8935, 5437, 4483, 3641, 5256, 5312, 5328, 5370, 3492, 2458, 1694, 1821, 2121,
    1916, 1149, 1516, 1367, 1236, 1029, 1258, 1104, 1245, 1006, 1149, 1025, 1241, 952, 1287, 997,
    1713, 1009, 1187, 879, 1099, 929, 1078, 951, 1656, 930, 1153, 1030, 1262, 1062, 1214, 1060,
    1621, 930, 1106, 912, 1034, 892, 1158, 990, 1175, 850, 1121, 903, 1087, 920, 1144, 1056,
    3462, 2240, 4397, 12136, 7758, 1345, 1307, 3278, 1950, 886, 1023, 1112, 1077, 1042, 1061, 1071,
    1484, 1001, 1096, 915, 1052, 995, 1070, 876, 1111, 851, 1059, 805, 1112, 923, 1103, 817,
    1899, 1872, 976, 841, 1127, 956, 1159, 950, 7791, 954, 1289, 933, 1127, 3207, 1020, 927,
    1355, 768, 1040, 745, 952, 805, 1073, 740, 1013, 805, 1008, 796, 996, 1057, 11457, 13504
  ]

  function Frequency(c: Symbol): (n: Positive) {
    FREQUENCIES[c]
  }

  /** Each byte value below n as often as the table says, in order. */
  function Training(n: nat): seq<Symbol>
    requires n <= 256
  {
    if n == 0 then [] else Training(n - 1) + Repeated(n - 1, Frequency(n - 1))
  }

  function Repeated(c: Symbol, k: nat): seq<Symbol> {
    if k == 0 then [] else Repeated(c, k - 1) + [c]
  }

  lemma {:induction false} CountOfJoin(a: seq<Symbol>, b: seq<Symbol>, c: Symbol)
    ensures Count(a + b, c) == Count(a, c) + Count(b, c)
  {
    if b == [] {
      assert a + b == a;
    } else {
      var n := |b| - 1;
      assert (a + b)[..|a| + n] == a + b[..n];
      CountOfJoin(a, b[..n], c);
    }
  }

  lemma {:induction false} CountOfRepeated(d: Symbol, k: nat, c: Symbol)
    ensures Count(Repeated(d, k), c) == if c == d then k else 0
  {
    if k > 0 {
      assert Repeated(d, k)[..|Repeated(d, k)| - 1] == Repeated(d, k - 1);
      CountOfRepeated(d, k - 1, c);
    }
  }

  lemma {:induction false} TrainingCounts(n: nat, c: Symbol)
    requires n <= 256
    ensures Count(Training(n), c) == if c < n then Frequency(c) else 0
  {
    hide Frequency;
    if n > 0 {
      TrainingCounts(n - 1, c);
      CountOfJoin(Training(n - 1), Repeated(n - 1, Frequency(n - 1)), c);
      CountOfRepeated(n - 1, Frequency(n - 1), c);
    }
  }

  /** The tree of every message */
  ghost function Trained(): Fgk {
    Run(Training(256))
  }

  lemma CountedLeaf(s: Fgk, history: seq<Symbol>, c: Symbol)
    requires Counted(s, history) && Count(history, c) > 0
    ensures |s.loc| == NYT + 1 && s.loc[c] != NIL && 0 <= s.loc[c] < |s.weight|
    ensures s.weight[s.loc[c]] == Count(history, c)
  {
  }

  /** Every byte value has a code, and its leaf weighs what the table says. */
  lemma TrainedIsComplete()
    ensures Complete(Trained())
    ensures
      var s := Trained();
      forall c: Symbol :: 0 <= s.loc[c] < |s.weight| && s.weight[s.loc[c]] == Frequency(c)
  {
    hide Invariant, Run, Frequency, Counted, Count, Training;
    var s := Trained();
    forall c: Symbol
      ensures |s.loc| == NYT + 1 && s.loc[c] != NIL && 0 <= s.loc[c] < |s.weight| && s.weight[s.loc[c]] == Frequency(c)
    {
      TrainingCounts(256, c);
      CountedLeaf(s, Training(256), c);
    }
  }

  lemma RunSteps(history: seq<Symbol>, c: Symbol)
    ensures Run(history + [c]) == AddRef(Run(history), c)
  {
    hide Invariant, AddRef, Counted;
    assert (history + [c])[..|history|] == history;
  }

  /** MSG_initHuffman */
  method InitHuffman() returns (compressor: Huff, decompressor: Huff)
    ensures fresh(compressor) && fresh(decompressor)
    ensures compressor.Represented(NIL) && decompressor.Represented(NIL)
    ensures compressor.Abs() == decompressor.Abs() == Trained()
  {
    hide Invariant, AddRef, Frequency, Blocks, Chained, FreeChain, Cells, Ranked, Run, Training, Repeated, Initial;
    compressor := new Huff();
    decompressor := new Huff();
    TrainingStarts();
    var i: nat := 0;
    while i < 256
      invariant 0 <= i <= 256 && compressor != decompressor && fresh(compressor) && fresh(decompressor)
      invariant compressor.Represented(NIL) && decompressor.Represented(NIL)
      invariant compressor.Abs() == decompressor.Abs() == Run(Training(i))
    {
      TrainingSteps(i);
      var j: nat := 0;
      while j < Frequency(i)
        invariant 0 <= j <= Frequency(i) && compressor != decompressor && fresh(compressor) && fresh(decompressor)
        invariant compressor.Represented(NIL) && decompressor.Represented(NIL)
        invariant compressor.Abs() == decompressor.Abs() == Run(Training(i) + Repeated(i, j))
      {
        RepeatedSteps(Training(i), i, j);
        compressor.AddRef(i);
        decompressor.AddRef(i);
        j := j + 1;
      }
      i := i + 1;
    }
  }

  lemma TrainingStarts()
    ensures Run(Training(0)) == Initial()
  {
    hide Initial;
  }

  lemma TrainingSteps(i: Symbol)
    ensures Training(i) + Repeated(i, 0) == Training(i)
    ensures Training(i + 1) == Training(i) + Repeated(i, Frequency(i))
  {
  }

  lemma RepeatedSteps(before: seq<Symbol>, c: Symbol, k: nat)
    ensures Run(before + Repeated(c, k + 1)) == AddRef(Run(before + Repeated(c, k)), c)
  {
    hide Run, AddRef;
    RunSteps(before + Repeated(c, k), c);
    assert before + Repeated(c, k) + [c] == before + Repeated(c, k + 1);
  }
}
