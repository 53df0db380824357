/**
  The zone allocator of Shared/common.c: block headers linked in a ring through a cap, and a rover
  from which the search for free memory starts. A block is known by its address; which of the two
  zones a tag belongs to is not part of this model.
 */
module Zone {
  import opened ZoneBlocks

  const ZONEID := 0x1d4a11
  const TRASH := 0xaaaa_aaaa
  const TAG_STATIC := 5

  /** memblock_t */
  datatype Header = Header(size: int, tag: int, next: int, prev: int, id: int)

  function NextOf(v: seq<Cell>, i: nat): int {
    if i + 1 < |v| then v[i + 1].addr else BLOCKLIST
  }

  function PrevOf(v: seq<Cell>, i: nat): int
    requires i <= |v|
  {
    if i > 0 then v[i - 1].addr else BLOCKLIST
  }

  function HeaderOf(v: seq<Cell>, i: nat): Header
    requires i < |v|
  {
    Header(v[i].size, v[i].tag, NextOf(v, i), PrevOf(v, i), ZONEID)
  }

  function CapOf(v: seq<Cell>): Header
    requires |v| > 0
  {
    Header(0, 1, v[0].addr, v[|v| - 1].addr, 0)
  }

  /** The headers in memory are those of the blocks, linked in both directions. */
  ghost predicate Linked(headers: map<int, Header>, v: seq<Cell>) {
    && |v| > 0 && BLOCKLIST in headers && headers[BLOCKLIST] == CapOf(v)
    && forall i | 0 <= i < |v| :: v[i].addr in headers && headers[v[i].addr] == HeaderOf(v, i)
  }

  ghost predicate Distinct(v: seq<Cell>) {
    && (forall i, j | 0 <= i < j < |v| :: v[i].addr != v[j].addr)
    && (forall i | 0 <= i < |v| :: v[i].addr != BLOCKLIST)
  }

  lemma LaidIsDistinct(v: seq<Cell>, zone: int)
    requires Laid(v, zone)
    ensures |v| > 0 && Distinct(v)
  {
    forall i, j | 0 <= i < j < |v| ensures v[i].addr != v[j].addr {
      BlocksAreDisjoint(v, zone, i, j);
    }
    forall i | 0 <= i < |v| ensures v[i].addr != BLOCKLIST {
      BlocksAreInside(v, zone, i);
    }
  }

  lemma AreLinked(headers: map<int, Header>, v: seq<Cell>)
    requires |v| > 0 && BLOCKLIST in headers && headers[BLOCKLIST] == CapOf(v)
    requires forall i | 0 <= i < |v| :: v[i].addr in headers && headers[v[i].addr] == HeaderOf(v, i)
    ensures Linked(headers, v)
  {
  }

  lemma DistinctAt(v: seq<Cell>, i: nat, j: nat)
    requires Distinct(v) && i < |v|
    ensures v[i].addr != BLOCKLIST
    ensures j < |v| ==> (v[i].addr == v[j].addr <==> i == j)
  {
  }

  lemma LinkedAt(headers: map<int, Header>, v: seq<Cell>, i: nat)
    requires Linked(headers, v)
    ensures BLOCKLIST in headers && headers[BLOCKLIST] == CapOf(v)
    ensures i < |v| ==> v[i].addr in headers && headers[v[i].addr] == HeaderOf(v, i)
  {
  }

  /** Setting the back link of what follows a block */
  function WithPrev(headers: map<int, Header>, at: int, prev: int): map<int, Header>
    requires at in headers
  {
    headers[at := headers[at].(prev := prev)]
  }

  lemma RetaggedIsLinked(headers: map<int, Header>, v: seq<Cell>, k: nat, tag: int)
    requires Linked(headers, v) && Distinct(v) && k < |v|
    ensures v[k].addr in headers
    ensures Linked(headers[v[k].addr := headers[v[k].addr].(tag := tag)], v[k := v[k].(tag := tag)])
  {
    hide Linked, Distinct;
    LinkedAt(headers, v, k);
    DistinctAt(v, k, k);
    var w, h := v[k := v[k].(tag := tag)], headers[v[k].addr := headers[v[k].addr].(tag := tag)];
    forall i | 0 <= i < |w| ensures w[i].addr in h && h[w[i].addr] == HeaderOf(w, i) {
      DistinctAt(v, i, k);
      LinkedAt(headers, v, i);
    }
    AreLinked(h, w);
  }

  /** The assignments that merge a block with the next one */
  function MergedHeaders(headers: map<int, Header>, a: int, b: int): map<int, Header>
    requires a in headers && b in headers && headers[b].next in headers
  {
    var h := headers[a := headers[a].(size := headers[a].size + headers[b].size, next := headers[b].next)];
    WithPrev(h, headers[b].next, a)
  }

  lemma MergedAt(v: seq<Cell>, k: nat, i: nat)
    requires k + 1 < |v| && i < |Merged(v, k)|
    ensures
      var both := Cell(v[k].addr, v[k].size + v[k + 1].size, v[k].tag);
      Merged(v, k)[i] == if i < k then v[i] else if i == k then both else v[i + 1]
  {
  }

  lemma MergedHeaderAt(headers: map<int, Header>, v: seq<Cell>, k: nat, i: nat)
    requires Linked(headers, v) && Distinct(v) && k + 1 < |v| && i < |Merged(v, k)|
    requires v[k].addr in headers && v[k + 1].addr in headers && headers[v[k + 1].addr].next in headers
    ensures
      var w, h := Merged(v, k), MergedHeaders(headers, v[k].addr, v[k + 1].addr);
      w[i].addr in h && h[w[i].addr] == HeaderOf(w, i)
  {
    hide Linked, Distinct, Merged;
    var j := if i <= k then i else i + 1;
    MergedAt(v, k, i);
    if i > 0 { MergedAt(v, k, i - 1); }
    if i + 1 < |Merged(v, k)| { MergedAt(v, k, i + 1); }
    LinkedAt(headers, v, k);
    LinkedAt(headers, v, k + 1);
    LinkedAt(headers, v, j);
    DistinctAt(v, j, k);
    DistinctAt(v, j, k + 2);
    if k + 2 < |v| { DistinctAt(v, k + 2, k); }
  }

  lemma MergedIsLinked(headers: map<int, Header>, v: seq<Cell>, k: nat)
    requires Linked(headers, v) && Distinct(v) && k + 1 < |v|
    ensures v[k].addr in headers && v[k + 1].addr in headers && headers[v[k + 1].addr].next in headers
    ensures Linked(MergedHeaders(headers, v[k].addr, v[k + 1].addr), Merged(v, k))
  {
    hide Linked, Distinct, Merged;
    LinkedAt(headers, v, k);
    LinkedAt(headers, v, k + 1);
    LinkedAt(headers, v, k + 2);
    DistinctAt(v, k, k);
    MergedAt(v, k, 0);
    MergedAt(v, k, |v| - 2);
    var w, h := Merged(v, k), MergedHeaders(headers, v[k].addr, v[k + 1].addr);
    forall i | 0 <= i < |w| ensures w[i].addr in h && h[w[i].addr] == HeaderOf(w, i) {
      MergedHeaderAt(headers, v, k, i);
    }
    AreLinked(h, w);
  }

  /** The assignments that split a block */
  function SplitHeaders(headers: map<int, Header>, base: int, size: int): map<int, Header>
    requires base in headers && headers[base].next in headers
  {
    var fresh0, extra, next := base + size, headers[base].size - size, headers[base].next;
    var h := headers[fresh0 := Header(extra, 0, next, base, ZONEID)];
    var h := WithPrev(h, next, fresh0);
    h[base := h[base].(next := fresh0, size := size)]
  }

  /** Block k before it is tagged, with the rest split off */
  function SplitOff(v: seq<Cell>, k: nat, size: int): (r: seq<Cell>)
    requires k < |v|
    ensures |r| == |v| + 1
  {
    v[..k] + [Cell(v[k].addr, size, v[k].tag), Cell(v[k].addr + size, v[k].size - size, 0)] + v[k + 1..]
  }

  lemma SplitOffAt(v: seq<Cell>, k: nat, size: int, i: nat)
    requires k < |v| && i < |SplitOff(v, k, size)|
    ensures SplitOff(v, k, size)[i] ==
      if i < k then v[i] else if i == k then Cell(v[k].addr, size, v[k].tag)
      else if i == k + 1 then Cell(v[k].addr + size, v[k].size - size, 0) else v[i - 1]
  {
  }

  lemma SplitHeaderAt(headers: map<int, Header>, v: seq<Cell>, k: nat, size: int, i: nat)
    requires Linked(headers, v) && Distinct(v) && k < |v| && Distinct(SplitOff(v, k, size))
    requires i < |SplitOff(v, k, size)|
    requires v[k].addr in headers && headers[v[k].addr].next in headers
    ensures
      var w, h := SplitOff(v, k, size), SplitHeaders(headers, v[k].addr, size);
      w[i].addr in h && h[w[i].addr] == HeaderOf(w, i)
  {
    hide Linked, Distinct, SplitOff;
    var w := SplitOff(v, k, size);
    SplitOffAt(v, k, size, i);
    SplitOffAt(v, k, size, k + 1);
    if i > 0 { SplitOffAt(v, k, size, i - 1); }
    if i + 1 < |w| { SplitOffAt(v, k, size, i + 1); }
    if k + 2 < |w| { SplitOffAt(v, k, size, k + 2); }
    LinkedAt(headers, v, k);
    LinkedAt(headers, v, k + 1);
    DistinctAt(w, i, k + 1);
    DistinctAt(w, k + 1, k + 2);
    DistinctAt(w, k + 1, k);
    SplitOffAt(v, k, size, k);
    if i != k + 1 {
      var j := if i <= k then i else i - 1;
      LinkedAt(headers, v, j);
      DistinctAt(v, j, k);
      DistinctAt(v, j, k + 1);
    }
  }

  lemma SplitIsLinked(headers: map<int, Header>, v: seq<Cell>, k: nat, size: int)
    requires Linked(headers, v) && Distinct(v) && k < |v| && Distinct(SplitOff(v, k, size))
    ensures v[k].addr in headers && headers[v[k].addr].next in headers
    ensures Linked(SplitHeaders(headers, v[k].addr, size), SplitOff(v, k, size))
  {
    hide Linked, Distinct, SplitOff;
    LinkedAt(headers, v, k);
    LinkedAt(headers, v, k + 1);
    DistinctAt(v, k, k);
    var w, h := SplitOff(v, k, size), SplitHeaders(headers, v[k].addr, size);
    SplitOffAt(v, k, size, 0);
    SplitOffAt(v, k, size, |w| - 1);
    SplitOffAt(v, k, size, k + 1);
    DistinctAt(w, k + 1, k + 1);
    forall i | 0 <= i < |w| ensures w[i].addr in h && h[w[i].addr] == HeaderOf(w, i) {
      SplitHeaderAt(headers, v, k, size, i);
    }
    AreLinked(h, w);
  }

  // ---- the ring ----

  /** The blocks in list order, after the cap */
  function Node(v: seq<Cell>, p: nat): Cell
    requires p <= |v|
  {
    if p == 0 then Cell(BLOCKLIST, 0, 1) else v[p - 1]
  }

  /** Positions go on around the ring. */
  function At(v: seq<Cell>, p: nat): Cell
    requires p <= 2 * |v| + 1
  {
    Node(v, if p <= |v| then p else p - (|v| + 1))
  }

  lemma NextAt(headers: map<int, Header>, v: seq<Cell>, p: nat)
    requires Linked(headers, v) && p <= 2 * |v|
    ensures At(v, p).addr in headers && headers[At(v, p).addr].next == At(v, p + 1).addr
    ensures headers[At(v, p).addr].tag == At(v, p).tag && headers[At(v, p).addr].size == At(v, p).size
  {
    var q := if p <= |v| then p else p - (|v| + 1);
    if q > 0 { assert headers[v[q - 1].addr] == HeaderOf(v, q - 1); }
  }

  /** In the ring, too, no two neighbours are both free: the cap counts as taken. */
  lemma RingIsSeparate(v: seq<Cell>, p: nat)
    requires Separate(v) && p <= 2 * |v|
    ensures At(v, p).tag != 0 || At(v, p + 1).tag != 0
  {
    var q := if p <= |v| then p else p - (|v| + 1);
    if 0 < q < |v| { SeparateAt(v, q - 1); }
  }

  /** Different positions within one round are different blocks. */
  lemma RingIsDistinct(v: seq<Cell>, p: nat, q: nat)
    requires Distinct(v) && p <= q <= 2 * |v| + 1 && q <= p + |v|
    ensures At(v, p).addr == At(v, q).addr <==> p == q
  {
  }

  /** None of the n blocks from position p on suits. */
  ghost predicate NoneSuits(v: seq<Cell>, p: nat, n: nat, size: int)
    requires p + n <= 2 * |v| + 2
  {
    forall j | p <= j < p + n :: !Suits(At(v, j), size)
  }

  /** If none suits all around the ring, none suits at all. */
  lemma NoneSuitsAtAll(v: seq<Cell>, p: nat, size: int)
    requires p <= |v| && NoneSuits(v, p, |v| + 1, size)
    ensures forall i | 0 <= i < |v| :: !Suits(v[i], size)
  {
    forall i | 0 <= i < |v| ensures !Suits(v[i], size) {
      var j := if i + 1 >= p then i + 1 else i + 1 + |v| + 1;
      assert At(v, j) == v[i] && p <= j < p + (|v| + 1);
    }
  }

  /** Where the next search starts when block k has been taken */
  function Behind(v: seq<Cell>, k: nat): int {
    if k + 1 < |v| then v[k + 1].addr else BLOCKLIST
  }

  /** That is the least multiple of 8 that holds the request and 36 bytes more. */
  lemma NeededIs(request: nat)
    ensures request + 36 <= Needed(request) < request + 44 && Needed(request) % 8 == 0
  {
  }

  /** The size of the block for a request: header, request and guard, rounded up */
  function Needed(request: nat): (r: int)
    ensures r >= request + HEADER + 4 && r % 8 == 0
  {
    (request + HEADER + 4 + 7) / 8 * 8
  }

  lemma SplitOffIsLaid(v: seq<Cell>, zone: int, k: nat, size: int)
    requires Laid(v, zone) && k < |v| && 0 < size < v[k].size
    ensures Laid(SplitOff(v, k, size), zone)
  {
    var r := SplitOff(v, k, size);
    forall i, j | 0 <= i < j < |r| && j == i + 1 ensures r[i].addr + r[i].size == r[j].addr {
      if j <= k {
        assert v[i].addr + v[i].size == v[j].addr;
      } else if i > k {
        assert v[i - 1].addr + v[i - 1].size == v[i].addr || i == k + 1;
        if i == k + 1 && k + 1 < |v| { TouchesNext(v, zone, k); }
      }
    }
  }

  lemma TakenIsRetagged(v: seq<Cell>, w: seq<Cell>, k: nat, size: int, tag: int)
    requires k < |v| && w == if v[k].size - size > MINFRAGMENT then SplitOff(v, k, size) else v
    ensures k < |w| && w[k].addr == v[k].addr && w[k := w[k].(tag := tag)] == Taken(v, k, size, tag)
    ensures w[k].size == if v[k].size - size > MINFRAGMENT then size else v[k].size
  {
  }

  /** The blocks with a tag */
  ghost function Tagged(cells: set<Cell>, tag: int): set<Cell> {
    set c | c in cells && c.tag == tag
  }

  /** Only blocks with the tag are missing. */
  ghost predicate Thinned(all: set<Cell>, cells: set<Cell>, tag: int) {
    cells <= all && forall c | c in all && c.tag != tag :: c in cells
  }

  lemma IsLive(v: seq<Cell>, i: nat)
    requires i < |v|
    ensures v[i].tag != 0 ==> v[i] in Live(v)
    ensures forall c | c in Live(v) :: c in v
  {
  }

  lemma OneLess(all: set<Cell>, cells: set<Cell>, c: Cell, tag: int)
    requires Thinned(all, cells, tag) && c in cells && c.tag == tag
    ensures Thinned(all, cells - {c}, tag) && |Tagged(cells - {c}, tag)| == |Tagged(cells, tag)| - 1
  {
    assert Tagged(cells, tag) == Tagged(cells - {c}, tag) + {c};
  }

  lemma NoneTagged(all: set<Cell>, v: seq<Cell>, tag: int)
    requires Thinned(all, Live(v), tag) && forall j | 0 <= j < |v| :: v[j].tag != tag
    ensures Live(v) == (set c | c in all && c.tag != tag) && Tagged(Live(v), tag) == {}
  {
  }

  /** After so many turns Z_FreeTags is at block i. */
  ghost predicate Frees(v: seq<Cell>, now: seq<Cell>, tag: int, i: nat, turn: nat, count: nat) {
    && i < |now| && (forall j | 0 <= j < i :: now[j].tag != tag)
    && (tag == TAG_STATIC || tag == 0 ==> now == v)
    && (EndOfFreeing(v, tag) != Running ==>
          && Thinned(Live(v), Live(now), tag)
          && count + |Tagged(Live(now), tag)| == |Tagged(Live(v), tag)|
          && turn + |Tagged(Live(now), tag)| + |now| - i <= 2 * |v|)
  }

  lemma {:induction false} FewAreLive(v: seq<Cell>)
    ensures |Live(v)| <= |v|
  {
    if v != [] {
      var n := |v| - 1;
      FewAreLive(v[..n]);
      LiveParts(v, n);
      assert Live(v) == Live(v[..n]) + (if v[n].tag != 0 then {v[n]} else {});
    }
  }

  lemma FewAreTagged(cells: set<Cell>, tag: int)
    ensures |Tagged(cells, tag)| <= |cells|
  {
    Subset(Tagged(cells, tag), cells);
  }

  lemma {:induction false} Subset(a: set<Cell>, b: set<Cell>)
    requires a <= b
    ensures |a| <= |b|
  {
    if a != {} {
      var c :| c in a;
      Subset(a - {c}, b - {c});
    }
  }

  lemma FreesStart(v: seq<Cell>, tag: int)
    requires v != []
    ensures Frees(v, v, tag, 0, 0, 0)
  {
    hide Live, Tagged, EndOfFreeing;
    FewAreLive(v);
    FewAreTagged(Live(v), tag);
  }

  /** What a turn does */
  lemma FreesStep(v: seq<Cell>, now: seq<Cell>, tag: int, i: nat, turn: nat, count: nat, zone: int)
    requires Frees(v, now, tag, i, turn, count) && Laid(now, zone) && Separate(now)
    ensures now[i].tag == tag && tag == 0 ==> EndOfFreeing(v, tag) == Failed
    ensures now[i].tag == tag && tag == TAG_STATIC ==> Frees(v, now, tag, i, turn + 1, count + 1)
    ensures now[i].tag == tag && tag != 0 && tag != TAG_STATIC ==>
      Frees(v, Freed(now, i), tag, FreedAt(now, i), turn + 1, count + 1)
    ensures now[i].tag != tag && i + 1 < |now| ==> Frees(v, now, tag, i + 1, turn + 1, count)
    ensures now[i].tag != tag && i + 1 == |now| ==>
      && EndOfFreeing(v, tag) == Ended && Live(now) == (set c | c in Live(v) && c.tag != tag)
      && count == |Tagged(Live(v), tag)|
  {
    if now[i].tag == tag && tag != 0 && tag != TAG_STATIC {
      FreesOne(v, now, tag, i, turn, count, zone);
    }
    hide Live, Tagged, Laid, Separate, Freed;
    if now[i].tag != tag && i + 1 == |now| {
      NoneTagged(Live(v), now, tag);
      NoneIsNotTagged(v, now, tag);
    }
  }

  lemma NoneIsNotTagged(v: seq<Cell>, now: seq<Cell>, tag: int)
    requires (forall j | 0 <= j < |now| :: now[j].tag != tag) && (tag == TAG_STATIC || tag == 0 ==> now == v)
    ensures EndOfFreeing(v, tag) == Ended
  {
  }

  lemma FreesOne(v: seq<Cell>, now: seq<Cell>, tag: int, i: nat, turn: nat, count: nat, zone: int)
    requires Frees(v, now, tag, i, turn, count) && Laid(now, zone) && Separate(now)
    requires now[i].tag == tag && tag != 0 && tag != TAG_STATIC
    ensures Frees(v, Freed(now, i), tag, FreedAt(now, i), turn + 1, count + 1)
  {
    hide Live, Tagged, Laid, Separate;
    FreedIsLaid(now, zone, i);
    IsLive(now, i);
    OneLess(Live(v), Live(now), now[i], tag);
  }

  lemma FreesLong(v: seq<Cell>, now: seq<Cell>, tag: int, i: nat, turn: nat, count: nat)
    requires Frees(v, now, tag, i, turn, count)
    ensures EndOfFreeing(v, tag) == Running || turn < 2 * |v|
  {
  }

  lemma EndsDiffer(v: seq<Cell>, zone: int, i: nat, j: nat)
    requires Laid(v, zone) && i < |v| && j < |v|
    ensures v[i].addr + v[i].size == v[j].addr + v[j].size <==> i == j
  {
    if i < j { BlocksAreDisjoint(v, zone, i, j); }
    if j < i { BlocksAreDisjoint(v, zone, j, i); }
  }

  lemma MergedBackAt(v: seq<Cell>, k: nat)
    requires k < |v|
    ensures MergedBack(v, k)[FreedAt(v, k)].addr == if k > 0 && v[k - 1].tag == 0 then v[k - 1].addr else v[k].addr
  {
  }

  lemma FreedAddress(v: seq<Cell>, k: nat)
    requires k < |v|
    ensures Freed(v, k)[FreedAt(v, k)].addr == MergedBack(v, k)[FreedAt(v, k)].addr
  {
  }

  lemma TakenIsNew(v: seq<Cell>, zone: int, k: nat, size: int, tag: int)
    requires Laid(v, zone) && k < |v| && v[k].tag == 0 && tag != 0
    ensures k < |Taken(v, k, size, tag)| && Taken(v, k, size, tag)[k] !in Live(v)
  {
    var c := Taken(v, k, size, tag)[k];
    if c in Live(v) {
      var i: nat :| i < |v| && v[i] == c;
      SameAddressSameBlock(v, zone, i, k);
    }
  }

  lemma NextIsBlock(v: seq<Cell>, k: nat)
    requires k < |v|
    ensures NextOf(v, k) == BLOCKLIST || exists i | 0 <= i < |v| :: v[i].addr == NextOf(v, k)
  {
  }

  /** What Z_Free and Z_TagMalloc report */
  datatype Report = Done | Ignored | Refused

  /** How far Z_FreeTags has come: it has more turns to make, has ended, or has stopped with an error. */
  datatype Freeing = Running | Ended | Failed

  ghost predicate HasTag(v: seq<Cell>, tag: int) {
    exists i | 0 <= i < |v| :: v[i].tag == tag
  }

  /** What becomes of Z_FreeTags if it is given turns enough */
  ghost function EndOfFreeing(v: seq<Cell>, tag: int): Freeing {
    if tag == TAG_STATIC && HasTag(v, TAG_STATIC) then Running
    else if tag == 0 && HasTag(v, 0) then Failed
    else Ended
  }

  class MemZone {
    var size: int
    var used: int
    var rover: int
    var headers: map<int, Header>

    // the words that guard the ends of blocks, by address
    var guards: map<int, int>

    // the blocks, in list order
    ghost var blocks: seq<Cell>

    /** Each block that is not free has its guard. */
    ghost predicate Guarded()
      reads this`blocks, this`guards
    {
      forall c | c in blocks && c.tag != 0 :: c.addr + c.size - 4 in guards && guards[c.addr + c.size - 4] == ZONEID
    }

    ghost predicate Valid()
      reads this
    {
      && Laid(blocks, size) && Separate(blocks) && Linked(headers, blocks) && used == Used(blocks) && Guarded()
      && RoverStands()
    }

    /** The rover stands at a block or at the cap. */
    ghost predicate RoverStands()
      reads this`rover, this`blocks
    {
      rover == BLOCKLIST || exists i | 0 <= i < |blocks| :: blocks[i].addr == rover
    }

    /** Z_ClearZone: one free block */
    constructor (size: int)
      requires size > ZONE_HEADER
      ensures Valid() && blocks == [Cell(ZONE_HEADER, size - ZONE_HEADER, 0)] && this.size == size
    {
      this.size, used, rover := size, 0, ZONE_HEADER;
      headers := map[BLOCKLIST := Header(0, 1, ZONE_HEADER, ZONE_HEADER, 0),
                     ZONE_HEADER := Header(size - ZONE_HEADER, 0, BLOCKLIST, BLOCKLIST, ZONEID)];
      guards := map[];
      blocks := [Cell(ZONE_HEADER, size - ZONE_HEADER, 0)];
      new;
      assert blocks[..0] == [];
      assert blocks[0].addr == rover;
    }

    /** Where the rover is in the ring */
    ghost function RoverAt(): (p: nat)
      requires RoverStands()
      reads this`rover, this`blocks
      ensures p <= |blocks| && Node(blocks, p).addr == rover
    {
      if rover == BLOCKLIST then 0
      else
        var i: nat :| i < |blocks| && blocks[i].addr == rover;
        i + 1
    }

    lemma StaysGuarded(v: seq<Cell>, w: seq<Cell>, k: nat)
      requires k < |w| && Live(w) == Live(v) + {w[k]} && blocks == w
      requires forall c | c in v && c.tag != 0 ::
        c.addr + c.size - 4 in guards && guards[c.addr + c.size - 4] == ZONEID
      requires w[k].addr + w[k].size - 4 in guards && guards[w[k].addr + w[k].size - 4] == ZONEID
      ensures Guarded()
    {
      forall c | c in w && c.tag != 0 ensures c.addr + c.size - 4 in guards && guards[c.addr + c.size - 4] == ZONEID {
        assert c in Live(w);
      }
    }

    /** Z_CheckHeap: whether it finds an error; it never does. */
    method CheckHeap() returns (error: bool)
      requires Valid()
      ensures !error
    {
      hide Separate, Laid;
      LinkedAt(headers, blocks, 0);
      var block := headers[BLOCKLIST].next;
      ghost var i := 0;
      while true
        invariant 0 <= i < |blocks| && block == blocks[i].addr
        decreases |blocks| - i
      {
        LaidIsDistinct(blocks, size);
        LinkedAt(headers, blocks, i);
        LinkedAt(headers, blocks, i + 1);
        if i + 1 < |blocks| { DistinctAt(blocks, i + 1, i); }
        if headers[block].next == BLOCKLIST {
          break;
        }
        TouchesNext(blocks, size, i);
        SeparateAt(blocks, i);
        if block + headers[block].size != headers[block].next {
          return true;
        }
        if headers[headers[block].next].prev != block {
          return true;
        }
        if headers[block].tag == 0 && headers[headers[block].next].tag == 0 {
          return true;
        }
        block := headers[block].next;
        i := i + 1;
      }
      error := false;
    }

    /** Merges a block with the next one, as Z_Free does twice. */
    method MergeNext(a: int, ghost i: nat)
      requires Laid(blocks, size) && Linked(headers, blocks) && i + 1 < |blocks| && a == blocks[i].addr
      modifies this`headers, this`blocks
      ensures Laid(blocks, size) && Linked(headers, blocks) && blocks == Merged(old(blocks), i)
    {
      hide Laid, Linked, Merged, Distinct;
      LaidIsDistinct(blocks, size);
      LinkedAt(headers, blocks, i);
      LinkedAt(headers, blocks, i + 1);
      MergedIsLaid(blocks, size, i);
      MergedIsLinked(headers, blocks, i);
      ghost var h := MergedHeaders(headers, a, blocks[i + 1].addr);
      var b := headers[a].next;
      headers := headers[a := headers[a].(size := headers[a].size + headers[b].size, next := headers[b].next)];
      headers := headers[headers[a].next := headers[headers[a].next].(prev := a)];
      LaidIsDistinct(blocks, size);
      DistinctAt(blocks, i, i + 1);
      assert headers == h;
      blocks := Merged(blocks, i);
    }

    /** Z_Free, for a pointer to the memory of block k. Freeing no pointer or a free block is refused;
        static memory stays. */
    method Free(ptr: int, ghost k: nat) returns (r: Report)
      requires Valid() && (ptr != 0 ==> k < |blocks| && ptr == blocks[k].addr + HEADER)
      modifies this`used, this`rover, this`headers, this`guards, this`blocks
      ensures Valid()
      ensures r ==
        if ptr == 0 || old(blocks)[k].tag == 0 then Refused
        else if old(blocks)[k].tag == TAG_STATIC then Ignored
        else Done
      ensures r != Done ==> blocks == old(blocks) && headers == old(headers) && used == old(used) && rover == old(rover)
      ensures r == Done ==>
        && blocks == Freed(old(blocks), k) && rover == blocks[FreedAt(old(blocks), k)].addr
        && Live(blocks) == Live(old(blocks)) - {old(blocks)[k]}
    {
      hide Laid, Separate, Linked, Live, Used, Freed, MergedBack, Distinct;
      if ptr == 0 {
        return Refused;
      }
      var block := ptr - HEADER;
      LinkedAt(headers, blocks, k);
      if headers[block].id != ZONEID {
        assert false;
        return Refused;
      }
      if headers[block].tag == 0 {
        return Refused;
      }
      if headers[block].tag == TAG_STATIC {
        return Ignored;
      }
      if guards[block + headers[block].size - 4] != ZONEID {
        assert false;
        return Refused;
      }
      ghost var v := blocks;
      FreedIsLaid(v, size, k);
      FreedStaysGuarded(v, k);
      FreeBlock(block, k);
      r := Done;
    }

    /** After a block is freed and its memory overwritten, the guards of the others are intact. */
    lemma FreedStaysGuarded(v: seq<Cell>, k: nat)
      requires v == blocks && Guarded() && Laid(v, size) && Separate(v) && k < |v| && v[k].tag != 0
      ensures
        forall c | c in Freed(v, k) && c.tag != 0 ::
          && c.addr + c.size - 4 in guards && guards[c.addr + c.size - 4] == ZONEID
          && c.addr + c.size != v[k].addr + v[k].size
    {
      hide Freed;
      FreedIsLaid(v, size, k);
      forall c | c in Freed(v, k) && c.tag != 0
        ensures c in v && c.addr + c.size != v[k].addr + v[k].size
      {
        assert c in Live(Freed(v, k));
        var i: nat :| i < |v| && v[i] == c;
        EndsDiffer(v, size, i, k);
      }
    }

    /** The part of Z_Free after the checks. */
    method FreeBlock(block0: int, ghost k: nat)
      requires Laid(blocks, size) && Separate(blocks) && Linked(headers, blocks) && used == Used(blocks)
      requires k < |blocks| && block0 == blocks[k].addr && blocks[k].tag != 0
      requires forall c | c in Freed(blocks, k) && c.tag != 0 ::
        && c.addr + c.size - 4 in guards && guards[c.addr + c.size - 4] == ZONEID
        && c.addr + c.size != blocks[k].addr + blocks[k].size
      modifies this`used, this`rover, this`headers, this`guards, this`blocks
      ensures Valid() && blocks == Freed(old(blocks), k) && rover == blocks[FreedAt(old(blocks), k)].addr
    {
      hide Laid, Separate, Linked, Used, Merged, Distinct, MergedBack;
      ghost var v := blocks;
      FreedIsLaid(v, size, k);
      LinkedAt(headers, v, k);
      used := used - headers[block0].size;
      guards := guards[block0 + headers[block0].size - 4 := TRASH];
      var block := FreeBack(block0, k);
      ghost var i := FreedAt(v, k);
      rover := block;
      LinkedAt(headers, blocks, i);
      LinkedAt(headers, blocks, i + 1);
      var other := headers[block].next;
      if headers[other].tag == 0 {
        MergeNext(block, i);
        if other == rover {
          rover := block;
        }
      }
      FreedStarts(v, k);
      FreedAddress(v, k);
    }

    /** Frees a block and merges it with the block before it, if that is free. */
    method FreeBack(block0: int, ghost k: nat) returns (block: int)
      requires Laid(blocks, size) && Linked(headers, blocks)
      requires k < |blocks| && block0 == blocks[k].addr && blocks[k].tag != 0
      modifies this`rover, this`headers, this`blocks
      ensures Laid(blocks, size) && Linked(headers, blocks) && blocks == MergedBack(old(blocks), k)
      ensures block == blocks[FreedAt(old(blocks), k)].addr
    {
      hide Laid, Linked, Merged, Distinct;
      ghost var v := blocks;
      LaidIsDistinct(v, size);
      LinkedAt(headers, v, k);
      block := block0;
      RetaggedIsLinked(headers, v, k, 0);
      RetaggedIsLaid(v, size, k, 0);
      headers := headers[block := headers[block].(tag := 0)];
      blocks := Untagged(v, k);
      LinkedAt(headers, blocks, k);
      if k > 0 { LinkedAt(headers, blocks, k - 1); }
      LinkedAt(headers, blocks, 0);
      var other := headers[block].prev;
      if headers[other].tag == 0 {
        MergeNext(other, k - 1);
        if block == rover {
          rover := other;
        }
        block := other;
      }
      MergedBackAt(v, k);
    }

    /** A turn of the loop of Z_FreeTags, at block i. A static block is a turn's own successor. */
    method FreeTurn(tag: int, ghost i: nat) returns (end: Freeing, freed: bool, ghost j: nat)
      requires Valid() && i < |blocks| && rover == blocks[i].addr
      modifies this`used, this`rover, this`headers, this`guards, this`blocks
      ensures Valid() && freed == (old(blocks)[i].tag == tag)
      ensures freed && (tag == 0 || tag == TAG_STATIC) ==>
        && end == (if tag == 0 then Failed else Running) && j == i
        && blocks == old(blocks) && headers == old(headers) && used == old(used) && rover == old(rover)
      ensures freed && tag != 0 && tag != TAG_STATIC ==>
        && end == Running && blocks == Freed(old(blocks), i) && j == FreedAt(old(blocks), i)
        && rover == blocks[j].addr && Live(blocks) == Live(old(blocks)) - {old(blocks)[i]}
      ensures !freed ==>
        && blocks == old(blocks) && headers == old(headers) && used == old(used) && j == i + 1
        && end == (if j == |blocks| then Ended else Running) && (j < |blocks| ==> rover == blocks[j].addr)
    {
      hide Laid, Separate, Linked, Used, Freed, Distinct, Guarded, Live;
      ghost var v := blocks;
      LinkedAt(headers, v, i);
      LinkedAt(headers, v, i + 1);
      LaidIsDistinct(v, size);
      BlocksAreInside(v, size, i);
      end, freed := Running, headers[rover].tag == tag;
      if freed {
        var r := Free(rover + HEADER, i);
        if r == Refused {
          return Failed, true, i;
        }
        j := if r == Done then FreedAt(v, i) else i;
      } else {
        if i + 1 < |v| { BlocksAreInside(v, size, i + 1); }
        rover := headers[rover].next;
        j := i + 1;
        if rover == BLOCKLIST {
          end := Ended;
        }
      }
    }

    /** Z_FreeTags, for at most so many turns of its loop. If it ends, the blocks with the tag have been freed, and
        the other live blocks stay. With turns enough it ends, unless it is given the tag of static blocks
        while there is one: then it never ends, for Z_Free leaves the block and the rover where they are. Nor
        does it with tag 0 if there is a free block, which Z_Free refuses. */
    method FreeTags(tag: int, turns: nat) returns (end: Freeing, count: nat)
      requires Valid()
      modifies this`used, this`rover, this`headers, this`guards, this`blocks
      ensures Valid()
      ensures end == Ended ==> Live(blocks) == (set c | c in Live(old(blocks)) && c.tag != tag)
      ensures end == Ended ==> count == |Tagged(Live(old(blocks)), tag)|
      ensures end == EndOfFreeing(old(blocks), tag) || (end == Running && turns < 2 * |old(blocks)|)
    {
      hide Laid, Separate, Linked, Used, Freed, Distinct, Guarded, Live, Tagged, HasTag, EndOfFreeing;
      ghost var v := blocks;
      LaidIsDistinct(blocks, size);
      IsLive(blocks, 0);
      LinkedAt(headers, blocks, 0);
      rover := headers[BLOCKLIST].next;
      end, count := Running, 0;
      ghost var i := 0;
      FreesStart(v, tag);
      var turn := 0;
      while turn < turns
        invariant 0 <= turn <= turns && Valid() && end == Running && 0 <= i < |blocks| && rover == blocks[i].addr
        invariant Frees(v, blocks, tag, i, turn, count)
      {
        ghost var now, at := blocks, i;
        FreesStep(v, now, tag, i, turn, count, size);
        var freed;
        end, freed, i := FreeTurn(tag, i);
        if freed {
          count := count + 1;
        }
        turn := turn + 1;
        if end != Running {
          return;
        }
      }
      FreesLong(v, blocks, tag, i, turn, count);
    }

    /** Z_TagMalloc: it fails only if no free block is large enough, and otherwise takes the first
        one from the rover on. */
    method TagMalloc(request: nat, tag: int) returns (ok: bool, ptr: int, ghost k: nat, ghost n: nat)
      requires Valid() && tag != 0
      modifies this`used, this`rover, this`headers, this`guards, this`blocks
      ensures Valid()
      ensures ok <==> exists i :: 0 <= i < |old(blocks)| && Suits(old(blocks)[i], Needed(request))
      ensures !ok ==> blocks == old(blocks) && headers == old(headers) && used == old(used) && rover == old(rover)
      ensures ok ==>
        && k < |old(blocks)| && n <= |old(blocks)| && At(old(blocks), old(RoverAt()) + n) == old(blocks)[k]
        && Suits(old(blocks)[k], Needed(request)) && NoneSuits(old(blocks), old(RoverAt()), n, Needed(request))
      ensures ok ==>
        && blocks == Taken(old(blocks), k, Needed(request), tag) && k < |blocks| && blocks[k] !in Live(old(blocks))
        && TakenFor(old(blocks), blocks, k, Needed(request), tag) && rover == Behind(blocks, k)
        && ptr == blocks[k].addr + HEADER && blocks[k].addr + blocks[k].size >= ptr + request + 4
        && Live(blocks) == Live(old(blocks)) + {blocks[k]}
    {
      hide Laid, Separate, Linked, NoneSuits, At, Live, Used, Taken, Distinct, TakenFor;
      var size0 := Needed(request);
      var found, base;
      found, base, k, n := FindBase(size0);
      if !found {
        return false, 0, k, n;
      }
      assert Suits(blocks[k], size0);
      ghost var v := blocks;
      TakenIsUsed(v, k, size0, tag);
      TakenIsNew(v, size, k, size0, tag);
      TakenIsTight(v, k, size0, tag);
      LinkedAt(headers, v, k);
      SplitBase(base, size0, k);
      TakeBase(base, size0, tag, v, k);
      ok, ptr := true, base + HEADER;
    }

    /** The part of Z_TagMalloc that takes the block that has been found, once it is split. */
    method TakeBase(base: int, size0: int, tag: int, ghost v: seq<Cell>, ghost k: nat)
      requires k < |v| && base == v[k].addr && Laid(v, size) && Separate(v) && Suits(v[k], size0) && size0 > 0
      requires tag != 0
      requires blocks == if v[k].size - size0 > MINFRAGMENT then SplitOff(v, k, size0) else v
      requires Laid(blocks, size) && Linked(headers, blocks) && used == Used(v)
      requires forall c | c in v && c.tag != 0 ::
        c.addr + c.size - 4 in guards && guards[c.addr + c.size - 4] == ZONEID
      modifies this`used, this`rover, this`headers, this`guards, this`blocks
      ensures Valid() && blocks == Taken(v, k, size0, tag)
      ensures k < |blocks| && blocks[k].addr == base && blocks[k].size >= size0
      ensures rover == Behind(blocks, k)
    {
      hide Laid, Separate, Linked, Live, Used, Taken, Distinct, SplitOff;
      TakenIsLaid(v, size, k, size0, tag);
      TakenIsUsed(v, k, size0, tag);
      TakenIsRetagged(v, blocks, k, size0, tag);
      LaidIsDistinct(blocks, size);
      RetaggedIsLinked(headers, blocks, k, tag);
      LinkedAt(headers, blocks, k);
      LinkedAt(headers, blocks, k + 1);
      headers := headers[base := headers[base].(tag := tag)];
      rover := headers[base].next;
      used := used + headers[base].size;
      guards := guards[base + headers[base].size - 4 := ZONEID];
      blocks := Taken(v, k, size0, tag);
      NextIsBlock(blocks, k);
      StaysGuarded(v, blocks, k);
    }

    /** The part of Z_TagMalloc that splits off what is not needed. */
    method SplitBase(base: int, size0: int, ghost k: nat)
      requires Laid(blocks, size) && Linked(headers, blocks) && k < |blocks| && base == blocks[k].addr
      requires 0 < size0 <= blocks[k].size && base in headers && headers[base] == HeaderOf(blocks, k)
      modifies this`headers, this`blocks
      ensures Laid(blocks, size) && Linked(headers, blocks)
      ensures
        blocks == if old(blocks)[k].size - size0 > MINFRAGMENT then SplitOff(old(blocks), k, size0) else old(blocks)
    {
      hide Laid, Linked, SplitOff, Distinct;
      var extra := headers[base].size - size0;
      if extra > MINFRAGMENT {
        SplitOffIsLaid(blocks, size, k, size0);
        LaidIsDistinct(blocks, size);
        LaidIsDistinct(SplitOff(blocks, k, size0), size);
        SplitIsLinked(headers, blocks, k, size0);
        var fresh0 := base + size0;
        ghost var h := SplitHeaders(headers, base, size0);
        headers := headers[fresh0 := Header(extra, 0, headers[base].next, base, ZONEID)];
        headers := headers[headers[fresh0].next := headers[headers[fresh0].next].(prev := fresh0)];
        headers := headers[base := headers[base].(next := fresh0)];
        headers := headers[base := headers[base].(size := size0)];
        assert headers == h;
        blocks := SplitOff(blocks, k, size0);
      }
    }

    /** The scan of Z_TagMalloc: the first suitable block from the rover on, if there is any. */
    method FindBase(size0: int) returns (found: bool, base: int, ghost k: nat, ghost n: nat)
      requires Valid() && size0 > 0
      ensures found ==>
        && k < |blocks| && base == blocks[k].addr && Suits(blocks[k], size0)
        && n <= |blocks| && At(blocks, RoverAt() + n) == blocks[k] && NoneSuits(blocks, RoverAt(), n, size0)
      ensures !found ==> forall i | 0 <= i < |blocks| :: !Suits(blocks[i], size0)
    {
      hide Separate, Laid, Linked, Distinct, NoneSuits, At, Guarded;
      ghost var p, v := RoverAt(), blocks;
      RingStarts(v, p, size0);
      LaidIsDistinct(v, size);
      base := rover;
      var rov := rover;
      StartIs(headers, v, p);
      var start := headers[base].prev;
      ghost var b, r := p, p;
      k, n := 0, 0;
      while true
        invariant p <= b <= r <= b + 1 && r <= p + |v|
        invariant base == At(v, b).addr && rov == At(v, r).addr
        invariant NoneSuits(v, p, b - p, size0)
        invariant r > p ==> !Suits(At(v, b), size0)
        invariant r > b ==> At(v, b).tag == 0
        decreases p + |v| - r
      {
        NextAt(headers, v, r);
        RingIsDistinct(v, r, p + |v|);
        if rov == start {
          LastIsExamined(v, p, b, r, size0);
          return false, base, k, n;
        }
        if r > b { RingIsSeparate(v, b); }
        if headers[rov].tag != 0 {
          NoneMore(v, p, b - p, size0);
          if r > b { NoneMore(v, p, b + 1 - p, size0); }
          rov := headers[rov].next;
          base := rov;
          b, r := r + 1, r + 1;
        } else {
          rov := headers[rov].next;
          r := r + 1;
        }
        NextAt(headers, v, b);
        if !(headers[base].tag != 0 || headers[base].size < size0) {
          break;
        }
      }
      found := true;
      k := InRing(v, b);
      n := b - p;
    }
  }

  lemma TakenHasTag(v: seq<Cell>, k: nat, size: int, tag: int)
    requires k < |v|
    ensures HasTag(Taken(v, k, size, tag), tag)
  {
    assert Taken(v, k, size, tag)[k].tag == tag;
  }

  /** Z_FreeTags does not end, however long it runs, once static memory has been allocated. */
  method FreeStatic(size: int, request: nat, turns: nat) returns (ok: bool, end: Freeing)
    requires size > ZONE_HEADER
    ensures ok <==> Needed(request) <= size - ZONE_HEADER
    ensures ok ==> end == Running
  {
    hide MemZone.Valid, Live, Taken, NoneSuits, At;
    var zone := new MemZone(size);
    ghost var v := zone.blocks;
    var ptr, count;
    ghost var k, n;
    ok, ptr, k, n := zone.TagMalloc(request, TAG_STATIC);
    assert Suits(v[0], Needed(request)) <==> Needed(request) <= size - ZONE_HEADER;
    end := Running;
    if ok {
      TakenHasTag(v, k, Needed(request), TAG_STATIC);
      end, count := zone.FreeTags(TAG_STATIC, turns);
    }
  }

  /** What several requests take together */
  function NeededAll(requests: seq<nat>): nat {
    if requests == [] then 0 else NeededAll(requests[..|requests| - 1]) + Needed(requests[|requests| - 1])
  }

  lemma {:induction false} NeededGrows(requests: seq<nat>, i: nat)
    requires i <= |requests|
    ensures NeededAll(requests[..i]) <= NeededAll(requests)
    decreases |requests|
  {
    var n := |requests|;
    if i < n {
      NeededGrows(requests[..n - 1], i);
      assert requests[..n - 1][..i] == requests[..i];
    } else {
      assert requests[..i] == requests;
    }
  }

  /** The blocks of a zone from which the requests have been served one after the other */
  ghost predicate Served(v: seq<Cell>, size: int, requests: seq<nat>) {
    && |v| == |requests| + 1
    && v[|v| - 1] == Cell(ZONE_HEADER + NeededAll(requests), size - ZONE_HEADER - NeededAll(requests), 0)
    && forall i | 0 <= i < |requests| :: v[i].tag != 0 && v[i].size == Needed(requests[i])
  }

  lemma ServedOneMore(v: seq<Cell>, w: seq<Cell>, size: int, requests: seq<nat>, i: nat, k: nat, tag: int)
    requires i < |requests| && Served(v, size, requests[..i]) && tag != 0
    requires NeededAll(requests[..i]) + Needed(requests[i]) + 64 < size - ZONE_HEADER
    requires k < |v| && v[k].tag == 0 && TakenFor(v, w, k, Needed(requests[i]), tag)
    ensures Served(w, size, requests[..i + 1])
  {
    assert k == i;
    assert requests[..i + 1][..i] == requests[..i];
    forall j | 0 <= j < i ensures w[j] == v[j] {
      assert w[..k][j] == v[..k][j];
    }
  }

  /** Requests that fit a cleared zone together, with more than 64 bytes to spare, are all served, each with a block of
      its exact size. */
  method ServeAll(size: int, requests: seq<nat>, tag: int) returns (zone: MemZone)
    requires tag != 0 && size > ZONE_HEADER + NeededAll(requests) + 64
    ensures zone.Valid() && Served(zone.blocks, size, requests)
  {
    hide MemZone.Valid, Live, Taken, NoneSuits, At, TakenFor, Served;
    zone := new MemZone(size);
    NothingServed(zone.blocks, size);
    var i := 0;
    assert requests[..0] == [];
    while i < |requests|
      invariant 0 <= i <= |requests| && zone.Valid() && fresh(zone) && Served(zone.blocks, size, requests[..i])
    {
      ghost var v := zone.blocks;
      NeededGrows(requests, i + 1);
      NeededLast(requests, i);
      LastSuits(v, size, requests[..i], Needed(requests[i]));
      var ok, ptr;
      ghost var k, n;
      ok, ptr, k, n := zone.TagMalloc(requests[i], tag);
      ServedOneMore(v, zone.blocks, size, requests, i, k, tag);
      i := i + 1;
    }
    assert requests[..i] == requests;
  }

  lemma NothingServed(v: seq<Cell>, size: int)
    requires v == [Cell(ZONE_HEADER, size - ZONE_HEADER, 0)]
    ensures Served(v, size, [])
  {
  }

  lemma NeededLast(requests: seq<nat>, i: nat)
    requires i < |requests|
    ensures NeededAll(requests[..i + 1]) == NeededAll(requests[..i]) + Needed(requests[i])
  {
    assert requests[..i + 1][..i] == requests[..i];
  }

  lemma LastSuits(v: seq<Cell>, size: int, requests: seq<nat>, more: int)
    requires Served(v, size, requests) && NeededAll(requests) + more <= size - ZONE_HEADER
    ensures exists i :: 0 <= i < |v| && Suits(v[i], more)
  {
    assert Suits(v[|v| - 1], more);
  }

  lemma RingStarts(v: seq<Cell>, p: nat, size: int)
    requires p <= |v|
    ensures At(v, p) == Node(v, p) && NoneSuits(v, p, 0, size)
  {
  }

  lemma NoneMore(v: seq<Cell>, p: nat, n: nat, size: int)
    requires p + n <= 2 * |v| + 1 && NoneSuits(v, p, n, size) && !Suits(At(v, p + n), size)
    ensures NoneSuits(v, p, n + 1, size)
  {
  }

  lemma TouchesNext(v: seq<Cell>, zone: int, i: nat)
    requires Laid(v, zone) && i + 1 < |v|
    ensures v[i].addr + v[i].size == v[i + 1].addr
  {
  }

  /** The block before the rover's is the last of the round. */
  lemma StartIs(headers: map<int, Header>, v: seq<Cell>, p: nat)
    requires Linked(headers, v) && p <= |v|
    ensures Node(v, p).addr in headers && headers[Node(v, p).addr].prev == At(v, p + |v|).addr
  {
    if p > 0 { LinkedAt(headers, v, p - 1); }
  }

  /** When the scan has come around, the last block cannot suit either. */
  lemma LastIsExamined(v: seq<Cell>, p: nat, b: nat, r: nat, size: int)
    requires |v| > 0 && Separate(v) && p <= |v| && p <= b <= r <= b + 1 && r == p + |v|
    requires NoneSuits(v, p, b - p, size) && !Suits(At(v, b), size) && (r > b ==> At(v, b).tag == 0)
    ensures forall i | 0 <= i < |v| :: !Suits(v[i], size)
  {
    if r > b { RingIsSeparate(v, b); }
    NoneSuitsAtAll(v, p, size);
  }

  /** The block at a position of the ring, if it is free */
  lemma InRing(v: seq<Cell>, p: nat) returns (k: nat)
    requires p <= 2 * |v| + 1 && At(v, p).tag == 0
    ensures k < |v| && At(v, p) == v[k]
  {
    k := (if p <= |v| then p else p - (|v| + 1)) - 1;
  }
}
