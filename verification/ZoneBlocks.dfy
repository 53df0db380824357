/**
  The layout of a memory zone (Shared/common.c): blocks that tile it in list order, no two free ones
  next to each other.
 */
module ZoneBlocks {
  // the sizes of the program's structures on a 64-bit machine
  const HEADER := 32        // memblock_t
  const ZONE_HEADER := 48   // memzone_t
  const BLOCKLIST := 8      // where the list's cap is in memzone_t
  const MINFRAGMENT := 64

  /** A block: its address, its size with the header, and its tag, 0 if it is free. */
  datatype Cell = Cell(addr: int, size: int, tag: int)

  /** The blocks tile the zone exactly. */
  ghost predicate Laid(v: seq<Cell>, size: int) {
    && |v| > 0 && v[0].addr == ZONE_HEADER && v[|v| - 1].addr + v[|v| - 1].size == size
    && (forall i | 0 <= i < |v| :: v[i].size > 0)
    && (forall i, j | 0 <= i < j < |v| && j == i + 1 :: v[i].addr + v[i].size == v[j].addr)
  }

  /** No two neighbours are both free. */
  ghost predicate Separate(v: seq<Cell>) {
    forall i, j | 0 <= i < j < |v| && j == i + 1 :: v[i].tag != 0 || v[j].tag != 0
  }

  /** The total size of the blocks that are not free */
  function Used(v: seq<Cell>): int {
    if v == [] then 0 else Used(v[..|v| - 1]) + if v[|v| - 1].tag != 0 then v[|v| - 1].size else 0
  }

  /** The blocks that are not free */
  function Live(v: seq<Cell>): set<Cell> {
    set c | c in v && c.tag != 0
  }

  /** Blocks do not overlap: the memory of one ends before the next begins. */
  lemma {:induction false} BlocksAreDisjoint(v: seq<Cell>, size: int, i: nat, j: nat)
    requires Laid(v, size) && i < j < |v|
    ensures v[i].addr + v[i].size <= v[j].addr
    decreases j
  {
    if i < j - 1 {
      BlocksAreDisjoint(v, size, i, j - 1);
      assert v[j - 1].addr + v[j - 1].size == v[j].addr;
    } else {
      assert v[i].addr + v[i].size == v[j].addr;
    }
  }

  /** All blocks lie behind the zone's own header and before its end. */
  lemma BlocksAreInside(v: seq<Cell>, size: int, i: nat)
    requires Laid(v, size) && i < |v|
    ensures ZONE_HEADER <= v[i].addr && v[i].addr + v[i].size <= size
  {
    if i > 0 { BlocksAreDisjoint(v, size, 0, i); }
    if i < |v| - 1 { BlocksAreDisjoint(v, size, i, |v| - 1); }
  }

  lemma SameAddressSameBlock(v: seq<Cell>, size: int, i: nat, j: nat)
    requires Laid(v, size) && i < |v| && j < |v| && v[i].addr == v[j].addr
    ensures i == j
  {
    if i < j { BlocksAreDisjoint(v, size, i, j); }
    if j < i { BlocksAreDisjoint(v, size, j, i); }
  }

  lemma {:induction false} UsedJoins(a: seq<Cell>, b: seq<Cell>)
    ensures Used(a + b) == Used(a) + Used(b)
    decreases |b|
  {
    if b == [] {
      assert a + b == a;
    } else {
      assert (a + b)[..|a + b| - 1] == a + b[..|b| - 1];
      UsedJoins(a, b[..|b| - 1]);
    }
  }

  function UsedSize(c: Cell): int {
    if c.tag != 0 then c.size else 0
  }

  lemma UsedOfOne(c: Cell)
    ensures Used([c]) == UsedSize(c)
  {
    assert [c][..0] == [];
  }

  /** Replacing one block changes what is used by that block. */
  lemma UsedOfParts(v: seq<Cell>, k: nat)
    requires k < |v|
    ensures Used(v) == Used(v[..k]) + UsedSize(v[k]) + Used(v[k + 1..])
  {
    UsedOfOne(v[k]);
    hide Used, UsedSize;
    var first := v[..k + 1];
    assert first == v[..k] + [v[k]] && v == first + v[k + 1..];
    UsedJoins(v[..k], [v[k]]);
    UsedJoins(first, v[k + 1..]);
  }

  // ---- allocation ----

  predicate Suits(c: Cell, size: int) {
    c.tag == 0 && c.size >= size
  }

  /** Block k is taken for `size` bytes; what is left is split off if it is more than MINFRAGMENT. */
  function Taken(v: seq<Cell>, k: nat, size: int, tag: int): (r: seq<Cell>)
    requires k < |v|
  {
    var c := v[k];
    if c.size - size > MINFRAGMENT
    then v[..k] + [Cell(c.addr, size, tag), Cell(c.addr + size, c.size - size, 0)] + v[k + 1..]
    else v[k := c.(tag := tag)]
  }

  /** Block k of v has been taken for so many bytes: it has less than 65 bytes more, and if it had more than 64 bytes
      more before, it has none, and a free block behind it holds the rest. All other blocks are as before. */
  predicate TakenFor(v: seq<Cell>, w: seq<Cell>, k: nat, size: int, tag: int) {
    && k < |v| && k < |w| && w[..k] == v[..k] && w[k].addr == v[k].addr && w[k].tag == tag
    && size <= w[k].size < size + 65
    && if v[k].size > size + 64
       then
         && w[k].size == size && |w| == |v| + 1 && w[k + 2..] == v[k + 1..]
         && w[k + 1] == Cell(v[k].addr + size, v[k].size - size, 0)
       else w[k].size == v[k].size && |w| == |v| && w[k + 1..] == v[k + 1..]
  }

  /** A block is taken with little to spare. */
  lemma TakenIsTight(v: seq<Cell>, k: nat, size: int, tag: int)
    requires k < |v| && Suits(v[k], size)
    ensures TakenFor(v, Taken(v, k, size, tag), k, size, tag)
  {
  }

  /** The blocks at i and i + 1 meet. */
  lemma TakenMeets(v: seq<Cell>, zone: int, k: nat, size: int, tag: int, i: nat)
    requires Laid(v, zone) && Separate(v) && k < |v| && v[k].size - size > MINFRAGMENT && tag != 0
    requires v[k].tag == 0 && i + 1 < |Taken(v, k, size, tag)|
    ensures
      var a, b := Taken(v, k, size, tag)[i], Taken(v, k, size, tag)[i + 1];
      a.addr + a.size == b.addr && (a.tag != 0 || b.tag != 0)
  {
    var r := Taken(v, k, size, tag);
    if i < k {
      assert r[i] == v[i] && (i + 1 < k ==> r[i + 1] == v[i + 1]);
      assert v[i].addr + v[i].size == v[i + 1].addr && (v[i].tag != 0 || v[i + 1].tag != 0);
    } else if i == k + 1 {
      assert r[i + 1] == v[k + 1];
      assert v[k].addr + v[k].size == v[k + 1].addr && (v[k].tag != 0 || v[k + 1].tag != 0);
    } else if i > k + 1 {
      assert r[i] == v[i - 1] && r[i + 1] == v[i];
      assert v[i - 1].addr + v[i - 1].size == v[i].addr && (v[i - 1].tag != 0 || v[i].tag != 0);
    }
  }

  lemma TakenIsLaid(v: seq<Cell>, zone: int, k: nat, size: int, tag: int)
    requires Laid(v, zone) && Separate(v) && k < |v| && Suits(v[k], size) && size > 0 && tag != 0
    ensures Laid(Taken(v, k, size, tag), zone) && Separate(Taken(v, k, size, tag))
  {
    var c, r := v[k], Taken(v, k, size, tag);
    if c.size - size > MINFRAGMENT {
      SplitEnds(v, zone, k, size, tag);
      hide Taken;
      forall i, j | 0 <= i < j < |r| && j == i + 1
        ensures r[i].addr + r[i].size == r[j].addr && (r[i].tag != 0 || r[j].tag != 0)
      {
        TakenMeets(v, zone, k, size, tag, i);
      }
    }
  }

  lemma SplitEnds(v: seq<Cell>, zone: int, k: nat, size: int, tag: int)
    requires Laid(v, zone) && k < |v| && v[k].size - size > MINFRAGMENT && size > 0
    ensures
      var r := Taken(v, k, size, tag);
      && |r| > 0 && r[0].addr == ZONE_HEADER && r[|r| - 1].addr + r[|r| - 1].size == zone
      && forall i | 0 <= i < |r| :: r[i].size > 0
  {
  }

  lemma TakenIsUsed(v: seq<Cell>, k: nat, size: int, tag: int)
    requires k < |v| && v[k].tag == 0 && tag != 0
    ensures k < |Taken(v, k, size, tag)| && Used(Taken(v, k, size, tag)) == Used(v) + Taken(v, k, size, tag)[k].size
    ensures Live(Taken(v, k, size, tag)) == Live(v) + {Taken(v, k, size, tag)[k]}
  {
    var r := Taken(v, k, size, tag);
    UsedOfParts(v, k);
    UsedOfParts(r, k);
    assert r[..k] == v[..k];
    if v[k].size - size > MINFRAGMENT {
      UsedOfParts(r[k + 1..], 0);
      assert r[k + 1..][1..] == v[k + 1..];
      assert Used(r[k + 1..][..0]) == 0;
      LiveParts(v, k);
      LiveParts(r, k);
      LiveParts(r[k + 1..], 0);
    } else {
      assert r[k + 1..] == v[k + 1..];
      LiveParts(v, k);
      LiveParts(r, k);
    }
  }

  lemma LiveParts(v: seq<Cell>, k: nat)
    requires k < |v|
    ensures Live(v) == Live(v[..k]) + (if v[k].tag != 0 then {v[k]} else {}) + Live(v[k + 1..])
  {
    assert v == v[..k] + [v[k]] + v[k + 1..];
  }

  // ---- freeing ----

  /** Blocks i and i + 1 become one, with the tag of the first. */
  function Merged(v: seq<Cell>, i: nat): (r: seq<Cell>)
    requires i + 1 < |v|
    ensures |r| == |v| - 1
  {
    v[..i] + [Cell(v[i].addr, v[i].size + v[i + 1].size, v[i].tag)] + v[i + 2..]
  }

  lemma MergedParts(v: seq<Cell>, i: nat)
    requires i + 1 < |v|
    ensures Merged(v, i)[..i] == v[..i] && Merged(v, i)[i + 1..] == v[i + 2..]
  {
  }

  lemma MergedIsLaid(v: seq<Cell>, zone: int, i: nat)
    requires Laid(v, zone) && i + 1 < |v|
    ensures Laid(Merged(v, i), zone)
  {
    var r := Merged(v, i);
    assert v[i].addr + v[i].size == v[i + 1].addr;
    forall a, b | 0 <= a < b < |r| && b == a + 1 ensures r[a].addr + r[a].size == r[b].addr {
      if b <= i {
        assert v[a].addr + v[a].size == v[b].addr;
      } else {
        assert r[b] == v[b + 1];
        assert v[a + 1].addr + v[a + 1].size == v[b + 1].addr;
      }
    }
  }

  /** A free block counts for nothing. */
  lemma FreeIsUnused(v: seq<Cell>, k: nat)
    requires k < |v| && v[k].tag == 0
    ensures Used(v) == Used(v[..k]) + Used(v[k + 1..]) && Live(v) == Live(v[..k]) + Live(v[k + 1..])
  {
    UsedOfParts(v, k);
    LiveParts(v, k);
  }

  lemma MergedIsUsed(v: seq<Cell>, i: nat)
    requires i + 1 < |v| && v[i].tag == 0 && v[i + 1].tag == 0
    ensures Used(Merged(v, i)) == Used(v) && Live(Merged(v, i)) == Live(v)
  {
    var r, w := Merged(v, i), v[i + 1..];
    MergedParts(v, i);
    assert r[i].tag == 0 && w[0] == v[i + 1] && w[1..] == v[i + 2..] && w[..0] == [];
    hide Merged;
    FreeIsUnused(v, i);
    FreeIsUnused(r, i);
    FreeIsUnused(w, 0);
  }

  /** Block k freed, before it is merged with its neighbours */
  function Untagged(v: seq<Cell>, k: nat): seq<Cell>
    requires k < |v|
  {
    v[k := v[k].(tag := 0)]
  }

  /** Block k freed and merged with the block before it, if that is free */
  function MergedBack(v: seq<Cell>, k: nat): (r: seq<Cell>)
    requires k < |v|
  {
    if k > 0 && v[k - 1].tag == 0 then Merged(Untagged(v, k), k - 1) else Untagged(v, k)
  }

  /** Where block k then is */
  function FreedAt(v: seq<Cell>, k: nat): (r: nat)
    requires k < |v|
    ensures r < |MergedBack(v, k)|
  {
    if k > 0 && v[k - 1].tag == 0 then k - 1 else k
  }

  /** Z_Free: block k is merged with its free neighbours. */
  function Freed(v: seq<Cell>, k: nat): (r: seq<Cell>)
    requires k < |v|
    ensures FreedAt(v, k) < |r|
  {
    var w, i := MergedBack(v, k), FreedAt(v, k);
    if i + 1 < |w| && w[i + 1].tag == 0 then Merged(w, i) else w
  }

  lemma RetaggedIsLaid(v: seq<Cell>, zone: int, k: nat, tag: int)
    requires Laid(v, zone) && k < |v|
    ensures Laid(v[k := v[k].(tag := tag)], zone)
  {
    var r := v[k := v[k].(tag := tag)];
    assert forall i | 0 <= i < |v| :: r[i].addr == v[i].addr && r[i].size == v[i].size;
  }

  lemma UntaggedIsLaid(v: seq<Cell>, zone: int, k: nat)
    requires Laid(v, zone) && k < |v| && v[k].tag != 0
    ensures Laid(Untagged(v, k), zone) && Used(Untagged(v, k)) == Used(v) - v[k].size
  {
    RetaggedIsLaid(v, zone, k, 0);
    assert Untagged(v, k)[..k] == v[..k] && Untagged(v, k)[k + 1..] == v[k + 1..];
    hide Used, Laid;
    UsedOfParts(v, k);
    UsedOfParts(Untagged(v, k), k);
  }

  /** Freeing a block keeps the zone tiled, with no two free neighbours, and the other live blocks. */
  lemma FreedIsLaid(v: seq<Cell>, zone: int, k: nat)
    requires Laid(v, zone) && Separate(v) && k < |v| && v[k].tag != 0
    ensures Laid(Freed(v, k), zone) && Separate(Freed(v, k))
    ensures Used(Freed(v, k)) == Used(v) - v[k].size && Live(Freed(v, k)) == Live(v) - {v[k]}
    ensures Freed(v, k)[FreedAt(v, k)].tag == 0
    ensures forall i | 0 <= i < FreedAt(v, k) :: Freed(v, k)[i] == v[i]
  {
    hide Laid, Separate, Used, Live, Merged;
    var w, i := MergedBack(v, k), FreedAt(v, k);
    UntaggedIsLaid(v, zone, k);
    UntaggedIsLive(v, zone, k);
    FreedStarts(v, k);
    if k > 0 && v[k - 1].tag == 0 {
      MergedIsLaid(Untagged(v, k), zone, k - 1);
      MergedIsUsed(Untagged(v, k), k - 1);
    }
    FreedIsSeparate(v, k);
    if i + 1 < |w| && w[i + 1].tag == 0 {
      MergedIsLaid(w, zone, i);
      MergedIsUsed(w, i);
    }
  }

  lemma FreedStarts(v: seq<Cell>, k: nat)
    requires k < |v|
    ensures Freed(v, k)[FreedAt(v, k)].tag == 0 && MergedBack(v, k)[FreedAt(v, k)].tag == 0
    ensures forall i | 0 <= i < FreedAt(v, k) :: Freed(v, k)[i] == v[i]
  {
  }

  lemma UntaggedIsLive(v: seq<Cell>, zone: int, k: nat)
    requires Laid(v, zone) && k < |v|
    ensures Live(Untagged(v, k)) == Live(v) - {v[k]}
  {
    var u := Untagged(v, k);
    forall c | c in Live(v) && c != v[k] ensures c in Live(u) {
      var i :| 0 <= i < |v| && v[i] == c;
      assert u[i] == c;
    }
    forall c | c in Live(u) ensures c in Live(v) && c != v[k] {
      var i :| 0 <= i < |u| && u[i] == c;
      assert i != k;
      if c == v[k] { SameAddressSameBlock(v, zone, i, k); }
    }
  }

  lemma SeparateAt(v: seq<Cell>, i: nat)
    requires Separate(v)
    ensures i + 1 < |v| ==> v[i].tag != 0 || v[i + 1].tag != 0
  {
  }

  lemma MergedIsSeparate(v: seq<Cell>, i: nat)
    requires i + 1 < |v| && (i > 0 ==> v[i - 1].tag != 0) && (i + 2 < |v| ==> v[i + 2].tag != 0)
    requires Separate(v[..i]) && Separate(v[i + 2..])
    ensures Separate(Merged(v, i))
  {
    var r := Merged(v, i);
    forall a, b | 0 <= a < b < |r| && b == a + 1 ensures r[a].tag != 0 || r[b].tag != 0 {
      if b < i {
        SeparateAt(v[..i], a);
      } else if a > i {
        SeparateAt(v[i + 2..], a - i - 1);
      }
    }
  }

  lemma PartIsSeparate(v: seq<Cell>, i: nat, j: nat)
    requires i <= j <= |v| && Separate(v)
    ensures Separate(v[i..j])
  {
    forall a, b | 0 <= a < b < j - i && b == a + 1 ensures v[i..j][a].tag != 0 || v[i..j][b].tag != 0 {
      SeparateAt(v, i + a);
    }
  }

  /** What stands around block k when it has been freed and merged with the block before it */
  lemma MergedBackParts(v: seq<Cell>, k: nat)
    requires k < |v|
    ensures
      var w, m := MergedBack(v, k), FreedAt(v, k);
      w[..m] == v[0..m] && w[m + 1..] == v[k + 1..|v|] && w[m].tag == 0
  {
    var u, m := Untagged(v, k), FreedAt(v, k);
    if m < k { MergedParts(u, m); }
    assert u[..m] == v[0..m] && u[k + 1..] == v[k + 1..|v|];
  }

  lemma JoinIsSeparate(v: seq<Cell>, i: nat)
    requires i < |v| && Separate(v[..i]) && Separate(v[i + 1..])
    requires (i > 0 ==> v[i - 1].tag != 0) && (i + 1 < |v| ==> v[i + 1].tag != 0)
    ensures Separate(v)
  {
    forall a, b | 0 <= a < b < |v| && b == a + 1 ensures v[a].tag != 0 || v[b].tag != 0 {
      if b < i {
        SeparateAt(v[..i], a);
      } else if a > i {
        SeparateAt(v[i + 1..], a - i - 1);
      }
    }
  }

  lemma FreedIsSeparate(v: seq<Cell>, k: nat)
    requires Separate(v) && k < |v| && v[k].tag != 0
    ensures Separate(Freed(v, k))
  {
    hide Separate, MergedBack, Merged;
    var w, m := MergedBack(v, k), FreedAt(v, k);
    MergedBackParts(v, k);
    PartIsSeparate(v, 0, m);
    PartIsSeparate(v, k + 1, |v|);
    if m > 0 {
      assert w[m - 1] == w[..m][m - 1];
      SeparateAt(v, m - 1);
    }
    if m + 1 < |w| {
      assert w[m + 1] == w[m + 1..][0];
    }
    if m + 1 < |w| && w[m + 1].tag == 0 {
      SeparateAt(v, k + 1);
      assert w[m + 2..] == w[m + 1..][1..] == v[k + 2..|v|];
      PartIsSeparate(v, k + 2, |v|);
      assert m + 2 < |w| ==> w[m + 2] == w[m + 2..][0];
      MergedIsSeparate(w, m);
    } else {
      JoinIsSeparate(w, m);
    }
  }
}
