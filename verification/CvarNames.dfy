/**
  The names of console variables (Shared/cvar.c and Q_stricmp of Shared/q_shared.c): compared and hashed
  without regard to case.
 */
module CvarNames {
  const LONGEST := 99999
  const FILE_HASH_SIZE := 256

  predicate IsAscii(s: string) {
    forall i | 0 <= i < |s| :: 1 <= s[i] as int < 128
  }

  type Text = s: string | IsAscii(s) witness ""

  /** Cvar_ValidateString */
  predicate IsValidName(s: string) {
    '\\' !in s && '\"' !in s && ';' !in s
  }

  /** tolower in the C locale */
  function Lower(c: char): char {
    if 'A' <= c <= 'Z' then (c as int + 32) as char else c
  }

  function Fold(s: string): (r: string)
    ensures |r| == |s|
  {
    seq(|s|, i requires 0 <= i < |s| => Lower(s[i]))
  }

  /** Names that differ in case only */
  predicate SameName(a: string, b: string) {
    Fold(a) == Fold(b)
  }

  function Weight(s: string, n: nat): nat
    requires n <= |s|
  {
    if n == 0 then 0 else Weight(s, n - 1) + Lower(s[n - 1]) as int * (n - 1 + 119)
  }

  function HashOf(s: string): (h: nat)
    ensures h < FILE_HASH_SIZE
  {
    Weight(s, |s|) % FILE_HASH_SIZE
  }

  lemma {:induction false} SameWeight(a: string, b: string, n: nat)
    requires SameName(a, b) && n <= |a| == |b|
    ensures Weight(a, n) == Weight(b, n)
  {
    if n > 0 {
      SameWeight(a, b, n - 1);
      assert Fold(a)[n - 1] == Fold(b)[n - 1];
    }
  }

  /** Names that differ in case only have the same hash. */
  lemma SameHash(a: string, b: string)
    requires SameName(a, b)
    ensures HashOf(a) == HashOf(b)
  {
    assert |Fold(a)| == |Fold(b)|;
    SameWeight(a, b, |a|);
  }

  /** One more character weighs 119 more than its place. */
  lemma HashOfOneMore(s: string, c: char)
    ensures HashOf(s + [c]) == (HashOf(s) + Lower(c) as int * (|s| + 119)) % 256
  {
    SameStart(s + [c], s, |s|);
    SumModulo(Weight(s, |s|), Lower(c) as int * (|s| + 119));
  }

  lemma SumModulo(a: nat, b: nat)
    ensures (a + b) % 256 == (a % 256 + b) % 256
  {
  }

  lemma {:induction false} SameStart(a: string, b: string, n: nat)
    requires n <= |b| && b <= a
    ensures Weight(a, n) == Weight(b, n)
  {
    if n > 0 {
      SameStart(a, b, n - 1);
    }
  }

  /** generateHashValue */
  method GenerateHashValue(name: Text) returns (hash: nat)
    ensures hash == HashOf(name)
  {
    hash := 0;
    var i := 0;
    while i < |name|
      invariant 0 <= i <= |name| && hash == Weight(name, i)
    {
      var letter := Lower(name[i]);
      hash := hash + letter as int * (i + 119);
      i := i + 1;
    }
    hash := hash % FILE_HASH_SIZE;
  }

  /** The character at i, or the terminator */
  function CharAt(s: string, i: nat): int {
    if i < |s| then s[i] as int else 0
  }

  function Clip(s: string): string {
    if |s| <= LONGEST then s else s[..LONGEST]
  }

  /** Q_stricmpn with the limit that Q_stricmp gives it */
  method Compare(a: Text, b: Text) returns (r: int)
    ensures r == 0 <==> SameName(Clip(a), Clip(b))
  {
    var i, n := 0, LONGEST;
    while true
      invariant 0 <= i <= |a| && i <= |b| && n == LONGEST - i
      invariant i <= LONGEST && forall k | 0 <= k < i :: Lower(a[k]) == Lower(b[k])
      decreases n
    {
      var c1, c2 := CharAt(a, i), CharAt(b, i);
      if n == 0 {
        return 0;
      }
      n := n - 1;
      if c1 != c2 {
        if 'a' as int <= c1 <= 'z' as int { c1 := c1 - 32; }
        if 'a' as int <= c2 <= 'z' as int { c2 := c2 - 32; }
        if c1 != c2 {
          assert i < |a| && i < |b| ==> Fold(Clip(a))[i] != Fold(Clip(b))[i];
          assert i == |a| || i == |b| ==> |Fold(Clip(a))| != |Fold(Clip(b))|;
          return if c1 < c2 then -1 else 1;
        }
      }
      if c1 == 0 {
        return 0;
      }
      i := i + 1;
    }
  }
}
