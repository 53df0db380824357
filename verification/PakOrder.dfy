/**
  FS_ReorderPurePaks of Shared/files.c: the search path is a linked list whose entries are moved to the
  front in the order of the server's pack checksums.
 */
module PakOrder {
  import opened Options

  /** searchpath_t; a directory has no checksum. */
  class Entry {
    var next: Entry?
    const checksum: Option<int>

    constructor (checksum: Option<int>)
      ensures this.checksum == checksum && next == null
    {
      this.checksum := checksum;
      next := null;
    }
  }

  // ---- what becomes of the list ----

  predicate Matches(e: Entry, sum: int) {
    e.checksum == Some(sum)
  }

  /** The index of the first pack with a checksum, or the length */
  function FirstMatch(entries: seq<Entry>, sum: int): (k: nat)
    ensures k <= |entries| && (k < |entries| ==> Matches(entries[k], sum))
    ensures forall m | 0 <= m < k :: !Matches(entries[m], sum)
  {
    if entries == [] || Matches(entries[0], sum) then 0 else FirstMatch(entries[1..], sum) + 1
  }

  function Without(entries: seq<Entry>, k: nat): (r: seq<Entry>)
    requires k < |entries|
    ensures |r| == |entries| - 1
  {
    entries[..k] + entries[k + 1..]
  }

  /** The packs that are moved, in order */
  function Taken(entries: seq<Entry>, sums: seq<int>): (r: seq<Entry>)
    decreases |sums|
  {
    if sums == [] then []
    else
      var k := FirstMatch(entries, sums[0]);
      if k == |entries| then Taken(entries, sums[1..])
      else [entries[k]] + Taken(Without(entries, k), sums[1..])
  }

  /** The entries that are not moved */
  function Left(entries: seq<Entry>, sums: seq<int>): seq<Entry>
    decreases |sums|
  {
    if sums == [] then entries
    else
      var k := FirstMatch(entries, sums[0]);
      Left(if k == |entries| then entries else Without(entries, k), sums[1..])
  }

  function Reordered(entries: seq<Entry>, sums: seq<int>): seq<Entry> {
    Taken(entries, sums) + Left(entries, sums)
  }

  // ---- what that means ----

  /** The first pack with the first checksum goes first. */
  lemma TakenFirst(entries: seq<Entry>, sums: seq<int>)
    requires sums != [] && FirstMatch(entries, sums[0]) < |entries|
    ensures
      var k := FirstMatch(entries, sums[0]);
      var rest := Without(entries, k);
      && Taken(entries, sums) == [entries[k]] + Taken(rest, sums[1..])
      && Left(entries, sums) == Left(rest, sums[1..])
  {
    hide FirstMatch, Without;
  }

  lemma TakenNone(entries: seq<Entry>, sums: seq<int>)
    requires sums != [] && FirstMatch(entries, sums[0]) == |entries|
    ensures Taken(entries, sums) == Taken(entries, sums[1..]) && Left(entries, sums) == Left(entries, sums[1..])
  {
    hide FirstMatch, Without;
  }

  lemma WithoutOne(entries: seq<Entry>, k: nat)
    requires k < |entries|
    ensures multiset(entries) == multiset([entries[k]]) + multiset(Without(entries, k))
  {
    assert entries == entries[..k] + [entries[k]] + entries[k + 1..];
  }

  /** No entry is lost or duplicated. */
  lemma {:induction false} NothingIsLost(entries: seq<Entry>, sums: seq<int>)
    ensures multiset(Taken(entries, sums)) + multiset(Left(entries, sums)) == multiset(entries)
    ensures multiset(Reordered(entries, sums)) == multiset(entries)
    decreases |sums|
  {
    if sums != [] {
      hide FirstMatch, Without, Taken, Left;
      var k := FirstMatch(entries, sums[0]);
      if k == |entries| {
        NothingIsLost(entries, sums[1..]);
        TakenNone(entries, sums);
      } else {
        NothingIsLost(Without(entries, k), sums[1..]);
        TakenFirst(entries, sums);
        WithoutOne(entries, k);
      }
    }
  }

  /** Some elements of a sequence, in order */
  predicate Within<T(==)>(r: seq<T>, s: seq<T>, at: seq<int>) {
    && |at| == |r| && (forall i | 0 <= i < |at| :: 0 <= at[i] < |s| && r[i] == s[at[i]])
    && (forall i, j | 0 <= i < j < |at| :: at[i] < at[j])
  }

  lemma WithinSkips(r: seq<Entry>, entries: seq<Entry>, k: nat, before: seq<int>) returns (at: seq<int>)
    requires k < |entries| && Within(r, Without(entries, k), before)
    ensures Within(r, entries, at)
  {
    at := seq(|before|, i requires 0 <= i < |before| => if before[i] < k then before[i] else before[i] + 1);
  }

  /** The entries that are not moved keep their order. */
  lemma {:induction false} LeftKeepsOrder(entries: seq<Entry>, sums: seq<int>) returns (at: seq<int>)
    ensures Within(Left(entries, sums), entries, at)
    decreases |sums|
  {
    if sums == [] {
      at := seq(|entries|, i => i);
    } else {
      hide Within, Without, FirstMatch;
      var k := FirstMatch(entries, sums[0]);
      if k == |entries| {
        at := LeftKeepsOrder(entries, sums[1..]);
      } else {
        at := LeftKeepsOrder(Without(entries, k), sums[1..]);
        at := WithinSkips(Left(entries, sums), entries, k, at);
      }
    }
  }

  /** Packs that have some of the checksums, in their order */
  predicate Follows(packs: seq<Entry>, sums: seq<int>, at: seq<int>) {
    && |at| == |packs| && (forall i | 0 <= i < |at| :: 0 <= at[i] < |sums| && Matches(packs[i], sums[at[i]]))
    && (forall i, j | 0 <= i < j < |at| :: at[i] < at[j])
  }

  lemma FollowsLater(packs: seq<Entry>, sums: seq<int>, before: seq<int>) returns (at: seq<int>)
    requires sums != [] && Follows(packs, sums[1..], before)
    ensures Follows(packs, sums, at) && forall i | 0 <= i < |at| :: at[i] > 0
  {
    at := seq(|before|, i requires 0 <= i < |before| => before[i] + 1);
  }

  lemma FollowsFirst(e: Entry, packs: seq<Entry>, sums: seq<int>, before: seq<int>)
    requires sums != [] && Matches(e, sums[0]) && Follows(packs, sums, before)
    requires forall i | 0 <= i < |before| :: before[i] > 0
    ensures Follows([e] + packs, sums, [0] + before)
  {
  }

  /** The packs that are moved follow the order of the server. */
  lemma {:induction false} TakenFollowsServer(entries: seq<Entry>, sums: seq<int>) returns (at: seq<int>)
    ensures Follows(Taken(entries, sums), sums, at)
    decreases |sums|
  {
    at := [];
    if sums != [] {
      hide Follows, Without;
      var k := FirstMatch(entries, sums[0]);
      var rest := if k == |entries| then entries else Without(entries, k);
      at := TakenFollowsServer(rest, sums[1..]);
      at := FollowsLater(Taken(rest, sums[1..]), sums, at);
      if k < |entries| {
        FollowsFirst(entries[k], Taken(rest, sums[1..]), sums, at);
        at := [0] + at;
      }
    }
  }

  /** The packs with a checksum, in order */
  function PacksOf(entries: seq<Entry>, sum: int): seq<Entry> {
    if entries == [] then []
    else (if Matches(entries[0], sum) then [entries[0]] else []) + PacksOf(entries[1..], sum)
  }

  function CountSums(sums: seq<int>, sum: int): nat {
    if sums == [] then 0 else (if sums[0] == sum then 1 else 0) + CountSums(sums[1..], sum)
  }

  lemma {:induction false} PacksOfParts(a: seq<Entry>, b: seq<Entry>, sum: int)
    ensures PacksOf(a + b, sum) == PacksOf(a, sum) + PacksOf(b, sum)
  {
    if a == [] {
      assert a + b == b;
    } else {
      PacksOfParts(a[1..], b, sum);
      assert (a + b)[0] == a[0] && (a + b)[1..] == a[1..] + b;
      Associative(if Matches(a[0], sum) then [a[0]] else [], PacksOf(a[1..], sum), PacksOf(b, sum));
    }
  }

  lemma PacksOfOne(e: Entry, sum: int)
    ensures PacksOf([e], sum) == if Matches(e, sum) then [e] else []
  {
  }

  lemma {:induction false} PacksOfNone(entries: seq<Entry>, sum: int)
    requires forall m | 0 <= m < |entries| :: !Matches(entries[m], sum)
    ensures PacksOf(entries, sum) == []
  {
    if entries != [] {
      assert !Matches(entries[0], sum);
      PacksOfNone(entries[1..], sum);
    }
  }

  /** Taking the first pack with a checksum takes the first of that checksum and of no other. */
  lemma PacksOfWithout(entries: seq<Entry>, first: int, sum: int)
    requires FirstMatch(entries, first) < |entries|
    ensures
      var k := FirstMatch(entries, first);
      PacksOf(entries, sum) == PacksOf([entries[k]], sum) + PacksOf(Without(entries, k), sum)
  {
    hide PacksOf, FirstMatch, Matches;
    var k := FirstMatch(entries, first);
    var before, e, after := entries[..k], entries[k], entries[k + 1..];
    FirstMatchIsFirst(entries, first, sum);
    PacksOfParts(before, after, sum);
    PacksOfParts([e], after, sum);
    PacksOfParts(before, [e] + after, sum);
    assert entries == before + ([e] + after);
  }

  /** Nothing before the first match counts if it counts. */
  lemma FirstMatchIsFirst(entries: seq<Entry>, first: int, sum: int)
    requires FirstMatch(entries, first) < |entries|
    ensures
      var k := FirstMatch(entries, first);
      PacksOf([entries[k]], sum) == [] || PacksOf(entries[..k], sum) == []
  {
    var k := FirstMatch(entries, first);
    PacksOfOne(entries[k], sum);
    if sum == first {
      PacksOfNone(entries[..k], sum);
    }
  }

  /** Packs with the same checksum keep their order. */
  lemma {:induction false} SamePacksKeepOrder(entries: seq<Entry>, sums: seq<int>, sum: int)
    ensures PacksOf(Taken(entries, sums), sum) + PacksOf(Left(entries, sums), sum) == PacksOf(entries, sum)
    ensures PacksOf(Reordered(entries, sums), sum) == PacksOf(entries, sum)
    decreases |sums|
  {
    PacksOfParts(Taken(entries, sums), Left(entries, sums), sum);
    if sums != [] {
      hide FirstMatch, Without, Taken, Left, PacksOf;
      var k := FirstMatch(entries, sums[0]);
      if k == |entries| {
        TakenNone(entries, sums);
        SamePacksKeepOrder(entries, sums[1..], sum);
      } else {
        var rest := Without(entries, k);
        TakenFirst(entries, sums);
        PacksOfWithout(entries, sums[0], sum);
        SamePacksKeepOrder(rest, sums[1..], sum);
        PacksOfParts([entries[k]], Taken(rest, sums[1..]), sum);
        Associative(PacksOf([entries[k]], sum), PacksOf(Taken(rest, sums[1..]), sum),
          PacksOf(Left(rest, sums[1..]), sum));
      }
    }
  }

  lemma Associative(a: seq<Entry>, b: seq<Entry>, c: seq<Entry>)
    ensures a + b + c == a + (b + c)
  {
  }

  function Least(a: nat, b: nat): nat {
    if a < b then a else b
  }

  /** Of the packs with a checksum as many are moved as the server lists, if there are so many. */
  lemma {:induction false} TakenIsEnough(entries: seq<Entry>, sums: seq<int>, sum: int)
    ensures |PacksOf(Taken(entries, sums), sum)| == Least(|PacksOf(entries, sum)|, CountSums(sums, sum))
    decreases |sums|
  {
    if sums != [] {
      var k := FirstMatch(entries, sums[0]);
      if k == |entries| {
        PacksOfNone(entries, sums[0]);
        TakenIsEnough(entries, sums[1..], sum);
      } else {
        var rest := Without(entries, k);
        PacksOfWithout(entries, sums[0], sum);
        TakenIsEnough(rest, sums[1..], sum);
        PacksOfParts([entries[k]], Taken(rest, sums[1..]), sum);
      }
    }
  }

  // ---- the linked list ----

  /** The entry at k moved to n */
  function Moved(entries: seq<Entry>, n: nat, k: nat): (r: seq<Entry>)
    requires n <= k < |entries|
    ensures |r| == |entries|
  {
    seq(|entries|, i requires 0 <= i < |entries| =>
      if i == n then entries[k] else if n < i <= k then entries[i - 1] else entries[i])
  }

  lemma MovedIs(entries: seq<Entry>, n: nat, k: nat)
    requires n <= k < |entries|
    ensures
      var r := Moved(entries, n, k);
      r[..n + 1] == entries[..n] + [entries[k]] && r[n + 1..] == Without(entries[n..], k - n)
  {
  }

  /** One more pack has been moved. */
  lemma TakeOne(entries: seq<Entry>, n: nat, k: nat, sums: seq<int>)
    requires n <= k < |entries| && sums != [] && k - n == FirstMatch(entries[n..], sums[0])
    ensures
      var r := Moved(entries, n, k);
      && r[..n + 1] + Taken(r[n + 1..], sums[1..]) == entries[..n] + Taken(entries[n..], sums)
      && Left(r[n + 1..], sums[1..]) == Left(entries[n..], sums)
  {
    hide Moved, Without, Taken, Left, Reordered, FirstMatch;
    MovedIs(entries, n, k);
    TakenFirst(entries[n..], sums);
    var t := Taken(Without(entries[n..], k - n), sums[1..]);
    assert (entries[..n] + [entries[k]]) + t == entries[..n] + ([entries[k]] + t);
  }

  /** After n packs have been moved, going on with the other checksums gives the same list. */
  predicate Progress(now: seq<Entry>, n: nat, left: seq<int>, was: seq<Entry>, sums: seq<int>) {
    && n <= |now| && now[..n] + Taken(now[n..], left) == Taken(was, sums) && Left(now[n..], left) == Left(was, sums)
  }

  lemma ProgressStarts(entries: seq<Entry>, sums: seq<int>)
    ensures Progress(entries, 0, sums, entries, sums)
  {
    hide Taken, Left;
    assert entries[0..] == entries;
  }

  lemma ProgressMoves(now: seq<Entry>, n: nat, k: nat, left: seq<int>, was: seq<Entry>, sums: seq<int>)
    requires Progress(now, n, left, was, sums) && left != []
    requires n <= k < |now| && k - n == FirstMatch(now[n..], left[0])
    ensures Progress(Moved(now, n, k), n + 1, left[1..], was, sums)
  {
    hide Taken, Left, Moved, FirstMatch;
    TakeOne(now, n, k, left);
  }

  lemma ProgressStays(now: seq<Entry>, n: nat, left: seq<int>, was: seq<Entry>, sums: seq<int>)
    requires Progress(now, n, left, was, sums) && left != [] && FirstMatch(now[n..], left[0]) == |now| - n
    ensures Progress(now, n, left[1..], was, sums)
  {
    hide Taken, Left, FirstMatch;
    TakenNone(now[n..], left);
  }

  lemma ProgressEnds(now: seq<Entry>, n: nat, was: seq<Entry>, sums: seq<int>)
    requires Progress(now, n, [], was, sums)
    ensures now == Reordered(was, sums) && n == |Taken(was, sums)|
  {
    assert now == now[..n] + now[n..];
  }

  lemma MovedByParts(entries: seq<Entry>, n: nat, k: nat)
    requires n <= k < |entries|
    ensures
      var w := Without(entries, k);
      w[..n] + [entries[k]] + w[n..] == Moved(entries, n, k)
  {
  }

  /** A searchpath_t **: the head of the list, or the next of an entry */
  datatype Link = Start | After(entry: Entry)

  class SearchPaths {
    var first: Entry?
    var reordered: bool
    /** The entries in the order of the list */
    ghost var order: seq<Entry>
    ghost const entries: set<Entry>

    ghost function At(k: nat): Entry?
      reads this
    {
      if k < |order| then order[k] else null
    }

    /** The link to the entry at k */
    ghost function LinkTo(k: nat): Link
      requires k <= |order|
      reads this
    {
      if k == 0 then Start else After(order[k - 1])
    }

    ghost predicate Valid()
      reads this, entries
    {
      && first == At(0)
      && (forall i | 0 <= i < |order| :: order[i] in entries)
      && (forall i {:trigger order[i].next} | 0 <= i < |order| :: order[i].next == At(i + 1))
      && (forall i, j | 0 <= i < j < |order| :: order[i] != order[j])
    }

    constructor (ghost entries: set<Entry>)
      ensures Valid() && order == [] && !reordered && this.entries == entries
    {
      first, reordered, order := null, false, [];
      this.entries := entries;
    }

    /** Puts an entry in front. */
    method Add(s: Entry)
      requires Valid() && s in entries && s !in order
      modifies this, entries
      ensures Valid() && reordered == old(reordered) && order == [s] + old(order)
    {
      LinkIn(Start, s, 0);
    }

    method Load(link: Link) returns (e: Entry?)
      ensures e == if link.Start? then first else link.entry.next
    {
      match link {
        case Start => e := first;
        case After(entry) => e := entry.next;
      }
    }

    method Store(link: Link, e: Entry?)
      modifies if link.Start? then {this} else {link.entry}
      ensures link.Start? ==> first == e && reordered == old(reordered) && order == old(order)
      ensures link.After? ==> link.entry.next == e
    {
      match link {
        case Start => first := e;
        case After(entry) => entry.next := e;
      }
    }

    /** Takes the entry at k out of the list. */
    method Unlink(previous: Link, s: Entry, ghost k: nat)
      requires Valid() && k < |order| && order[k] == s && previous == LinkTo(k)
      modifies this, entries
      ensures Valid() && reordered == old(reordered) && order == Without(old(order), k)
      ensures first == if k == 0 then s.next else old(first)
    {
      Store(previous, s.next);
      order := Without(order, k);
    }

    /** Puts an entry into the list at n. */
    method LinkIn(insert: Link, s: Entry, ghost n: nat)
      requires Valid() && n <= |order| && s in entries && s !in order && insert == LinkTo(n)
      modifies this, entries
      ensures Valid() && reordered == old(reordered) && order == old(order[..n] + [s] + order[n..])
    {
      s.next := Load(insert);
      Store(insert, s);
      order := order[..n] + [s] + order[n..];
    }

    /** Takes the entry at k out of the list and puts it in at n. */
    method MoveEntry(previous: Link, insert: Link, s: Entry, ghost n: nat, ghost k: nat)
      requires Valid() && n <= k < |order| && order[k] == s && previous == LinkTo(k) && insert == LinkTo(n)
      modifies this, entries
      ensures Valid() && reordered == old(reordered)
      ensures order == Moved(old(order), n, k)
    {
      MovedByParts(order, n, k);
      hide Moved;
      Unlink(previous, s, k);
      LinkIn(insert, s, n);
    }

    /** Moves the first pack from n on that has a checksum to n; the link behind it, if there is one. */
    method MoveMatch(insert: Link, sum: int, ghost n: nat) returns (moved: Option<Link>)
      requires Valid() && n <= |order| && insert == LinkTo(n)
      modifies this, entries
      ensures Valid()
      ensures
        var k := n + FirstMatch(old(order[n..]), sum);
        if k == |old(order)| then moved == None && order == old(order) && reordered == old(reordered)
        else
          && order == Moved(old(order), n, k)
          && moved == Some(LinkTo(n + 1)) && reordered
    {
      var previous := insert;
      var s := Load(insert);
      ghost var k := n;
      moved := None;
      while s != null
        invariant n <= k <= |order| && Valid() && s == At(k) && previous == LinkTo(k) && order == old(order)
        invariant reordered == old(reordered) && moved == None
        invariant forall m | n <= m < k :: !Matches(order[m], sum)
        decreases |order| - k
      {
        if s.checksum == Some(sum) {
          reordered := true;
          FirstMatchIs(order[n..], sum, k - n);
          MoveEntry(previous, insert, s, n, k);
          return Some(After(s));
        }
        previous := After(s);
        s := s.next;
        k := k + 1;
      }
      FirstMatchIs(order[n..], sum, k - n);
    }

    /** Looks for one more checksum and moves the pack that has it. */
    method PlaceNext(insert: Link, sum: int, ghost n: nat, ghost left: seq<int>, ghost was: seq<Entry>,
        ghost sums: seq<int>)
      returns (behind: Link, ghost m: nat)
      requires Valid() && n <= |order| && insert == LinkTo(n)
      requires left != [] && left[0] == sum && Progress(order, n, left, was, sums)
      modifies this, entries
      ensures Valid() && n <= m <= |order| && behind == LinkTo(m) && Progress(order, m, left[1..], was, sums)
      ensures reordered == (old(reordered) || m > n)
    {
      hide Valid, Moved, FirstMatch, Progress;
      ghost var now, k := order, n + FirstMatch(order[n..], sum);
      behind, m := insert, n;
      var moved := MoveMatch(insert, sum, n);
      if moved.Some? {
        ProgressMoves(now, n, k, left, was, sums);
        behind, m := moved.value, n + 1;
      } else {
        ProgressStays(now, n, left, was, sums);
      }
    }

    /** Moves the packs of the server to the front. */
    method Reorder(sums: seq<int>)
      requires Valid()
      modifies this, entries
      ensures Valid() && order == Reordered(old(order), sums)
      ensures reordered == if sums == [] then old(reordered) else Taken(old(order), sums) != []
    {
      if sums == [] {
        return;
      }
      reordered := false;
      assert Valid();
      hide Valid, Progress;
      var insert, i := Start, 0;
      ghost var was, n, left := order, 0, sums;
      ProgressStarts(order, sums);
      while i < |sums|
        invariant 0 <= i <= |sums| && 0 <= n <= |order| && Valid() && insert == LinkTo(n)
        invariant left == sums[i..] && Progress(order, n, left, was, sums)
        invariant reordered == (n > 0)
      {
        insert, n := PlaceNext(insert, sums[i], n, left, was, sums);
        left := left[1..];
        i := i + 1;
      }
      ProgressEnds(order, n, was, sums);
    }
  }

  lemma {:induction false} FirstMatchIs(entries: seq<Entry>, sum: int, k: nat)
    requires k <= |entries| && (forall m | 0 <= m < k :: !Matches(entries[m], sum))
    requires k == |entries| || Matches(entries[k], sum)
    ensures FirstMatch(entries, sum) == k
  {
  }
}
