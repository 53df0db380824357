/**
  The table of console variables (Shared/cvar.c): MAX_CVARS slots, a doubly linked list of the used ones
  and FILE_HASH_SIZE doubly linked hash chains.
 */
module Cvars {
  import opened Options
  import opened CvarNames
  import opened CvarState

  const MAX_CVARS := 1024

  /** cvar_t */
  class Cvar {
    var name: Option<Text>
    var state: State
    var next: Cvar?
    var prev: Cvar?
    var hashNext: Cvar?
    var hashPrev: Cvar?
    var hashIndex: nat

    constructor ()
      ensures name == None && state == CLEARED
    {
      name, state, next, prev, hashNext, hashPrev, hashIndex := None, CLEARED, null, null, null, null, 0;
    }
  }

  /** The variable at i, or null outside the list */
  ghost function At(s: seq<Cvar>, i: int): Cvar? {
    if 0 <= i < |s| then s[i] else null
  }

  ghost predicate Distinct(s: seq<Cvar>) {
    forall i, j | 0 <= i < j < |s| :: s[i] != s[j]
  }

  ghost predicate AllIn(s: seq<Cvar>, slots: set<Cvar>) {
    forall i | 0 <= i < |s| :: s[i] in slots
  }

  ghost predicate Apart(s: seq<Cvar>, t: seq<Cvar>) {
    forall j | 0 <= j < |t| :: t[j] !in s
  }

  ghost function Without(s: seq<Cvar>, k: nat): (r: seq<Cvar>)
    requires k < |s|
    ensures |r| == |s| - 1
  {
    s[..k] + s[k + 1..]
  }

  predicate IsName(name: string) {
    IsValidName(name) && |name| <= LONGEST
  }

  /** A linear search of variables for a name */
  ghost function Search(s: seq<Cvar>, name: string): Cvar?
    reads s`name
  {
    if s == [] then null
    else if s[0].name.Some? && SameName(s[0].name.value, name) then s[0]
    else Search(s[1..], name)
  }

  lemma AtWithout(s: seq<Cvar>, k: nat)
    requires k < |s|
    ensures At(Without(s, k), k) == At(s, k + 1)
  {
  }

  lemma WithoutHas(s: seq<Cvar>, k: nat)
    requires k < |s| && Distinct(s)
    ensures forall v :: v in Without(s, k) <==> v in s && v != s[k]
  {
    forall v | v in s && v != s[k] ensures v in Without(s, k) {
      var i :| 0 <= i < |s| && s[i] == v;
      assert Without(s, k)[if i < k then i else i - 1] == v;
    }
  }

  class Table {
    var first: Cvar?
    var modifiedFlags: set<Flag>
    var numIndexes: nat
    /** Whether the variable sv_cheats is set */
    var cheats: bool
    const hashTable: array<Cvar?>
    const indexes: seq<Cvar>
    ghost const slots: set<Cvar>
    /** The variables in the order of the list, and those of each chain */
    ghost var order: seq<Cvar>
    ghost var chains: seq<seq<Cvar>>

    /** The list links its variables in order. */
    ghost predicate Listed()
      reads this`order, this`first, slots`next, slots`prev
    {
      && AllIn(order, slots) && Distinct(order) && first == At(order, 0)
      && (forall i {:trigger order[i].next} | 0 <= i < |order| :: order[i].next == At(order, i + 1))
      && (forall i {:trigger order[i].prev} | 0 <= i < |order| :: order[i].prev == At(order, i - 1))
    }

    ghost predicate Chained(s: seq<Cvar>, b: nat)
      reads slots`hashNext, slots`hashPrev, slots`hashIndex
    {
      && AllIn(s, slots) && Distinct(s)
      && (forall i {:trigger s[i].hashIndex} | 0 <= i < |s| :: s[i].hashIndex == b)
      && (forall i {:trigger s[i].hashNext} | 0 <= i < |s| :: s[i].hashNext == At(s, i + 1))
      && (forall i {:trigger s[i].hashPrev} | 0 <= i < |s| :: s[i].hashPrev == At(s, i - 1))
    }

    /** Every chain links its variables in order. */
    ghost predicate Hashed()
      reads this`chains, hashTable, slots`hashNext, slots`hashPrev, slots`hashIndex
    {
      && hashTable.Length == |chains| == FILE_HASH_SIZE
      && forall b | 0 <= b < FILE_HASH_SIZE :: hashTable[b] == At(chains[b], 0) && Chained(chains[b], b)
    }

    /** The slots are all the variables there are. */
    ghost predicate Slotted() {
      |indexes| == MAX_CVARS && Distinct(indexes) && AllIn(indexes, slots) && forall v | v in slots :: v in indexes
    }

    /** The used slots are in the list. */
    ghost predicate Used()
      reads this`order, slots`name
    {
      && AllIn(order, slots) && (forall v | v in slots :: v in order <==> v.name.Some?)
      && (forall v | v in order :: IsName(v.name.value))
    }

    /** A variable is in the chain of its name only. */
    ghost predicate Bucketed()
      requires Used()
      reads this`order, this`chains, slots`name
    {
      && |chains| == FILE_HASH_SIZE
      && (forall v | v in order :: v in chains[HashOf(v.name.value)])
      && (forall b, v | 0 <= b < FILE_HASH_SIZE && v in slots && v in chains[b] ::
            v in order && HashOf(v.name.value) == b)
    }

    /** No two variables have the same name. */
    ghost predicate Unique()
      requires Used()
      reads this`order, slots`name
    {
      forall v, w | v in order && w in order && v != w :: !SameName(v.name.value, w.name.value)
    }

    ghost predicate Named()
      reads this`order, this`chains, slots`name
    {
      Used() && Bucketed() && Unique()
    }

    /** Free slots are cleared, and no slot from numIndexes on is used. */
    ghost predicate Cleared()
      reads this`numIndexes, slots`name, slots`state
    {
      && (forall v | v in slots && v.name == None :: v.state == CLEARED)
      && numIndexes <= MAX_CVARS
      && (forall i | numIndexes <= i < |indexes| && indexes[i] in slots :: indexes[i].name == None)
    }

    ghost predicate Valid()
      reads this, hashTable, slots
    {
      Slotted() && Listed() && Hashed() && Named() && Cleared()
    }

    /** Takes a variable out of the list. */
    method UnlinkVar(cv: Cvar, ghost k: nat)
      requires Listed() && k < |order| && order[k] == cv
      modifies this`first, this`order, slots`next, slots`prev
      ensures Listed() && order == Without(old(order), k)
      ensures AllIn(order, slots) && forall v :: v in order <==> v in old(order) && v != cv
    {
      WithoutHas(order, k);
      if cv.prev != null {
        cv.prev.next := cv.next;
      } else {
        first := cv.next;
      }
      if cv.next != null {
        cv.next.prev := cv.prev;
      }
      order := Without(order, k);
    }

    /** Puts a variable in front of the list. */
    method LinkVar(cv: Cvar)
      requires Listed() && cv in slots && cv !in order
      modifies this`first, this`order, slots`next, slots`prev
      ensures Listed() && order == [cv] + old(order)
    {
      cv.next := first;
      if first != null {
        first.prev := cv;
      }
      cv.prev := null;
      first := cv;
      order := [cv] + order;
    }

    /** Different chains share no variable. */
    lemma ChainsAreApart(b: nat)
      requires Hashed() && b < FILE_HASH_SIZE
      ensures forall c | 0 <= c < FILE_HASH_SIZE && c != b :: Apart(chains[b], chains[c])
    {
      forall c, j | 0 <= c < FILE_HASH_SIZE && c != b && 0 <= j < |chains[c]| ensures chains[c][j] !in chains[b] {
        assert chains[c][j].hashIndex == c;
        assert forall i | 0 <= i < |chains[b]| :: chains[b][i].hashIndex == b;
      }
    }

    /** Takes a variable out of a chain. */
    method UnlinkFrom(cv: Cvar, ghost s: seq<Cvar>, ghost k: nat)
      requires hashTable.Length == FILE_HASH_SIZE && cv.hashIndex < FILE_HASH_SIZE && k < |s| && s[k] == cv
      requires Chained(s, cv.hashIndex) && hashTable[cv.hashIndex] == At(s, 0)
      modifies hashTable, slots`hashNext, slots`hashPrev
      ensures Chained(Without(s, k), cv.hashIndex) && hashTable[cv.hashIndex] == At(Without(s, k), 0)
      ensures forall c | 0 <= c < FILE_HASH_SIZE && c != cv.hashIndex :: hashTable[c] == old(hashTable[c])
      ensures forall v | v in slots && v !in s :: v.hashNext == old(v.hashNext) && v.hashPrev == old(v.hashPrev)
    {
      if cv.hashPrev != null {
        cv.hashPrev.hashNext := cv.hashNext;
      } else {
        hashTable[cv.hashIndex] := cv.hashNext;
      }
      if cv.hashNext != null {
        cv.hashNext.hashPrev := cv.hashPrev;
      }
    }

    /** Takes a variable out of its chain. */
    method UnlinkHash(cv: Cvar, ghost k: nat)
      requires Hashed() && cv in slots && cv.hashIndex < FILE_HASH_SIZE
      requires k < |chains[cv.hashIndex]| && chains[cv.hashIndex][k] == cv
      modifies this`chains, hashTable, slots`hashNext, slots`hashPrev
      ensures Hashed() && chains == old(chains)[cv.hashIndex := Without(old(chains[cv.hashIndex]), k)]
      ensures forall b, v | 0 <= b < FILE_HASH_SIZE :: v in chains[b] <==> v in old(chains)[b] && v != cv
    {
      ghost var b, was := cv.hashIndex, chains;
      ChainsAreApart(b);
      assert Chained(was[b], b);
      WithoutHas(was[b], k);
      UnlinkFrom(cv, was[b], k);
      chains := chains[b := Without(chains[b], k)];
      forall c | 0 <= c < FILE_HASH_SIZE && c != b ensures hashTable[c] == At(chains[c], 0) && Chained(chains[c], c) {
        assert Apart(was[b], was[c]) && AllIn(was[c], slots);
      }
      assert hashTable[b] == At(chains[b], 0) && Chained(chains[b], b);
    }

    /** Puts a variable in front of a chain. */
    method LinkHash(cv: Cvar, hash: nat)
      requires Hashed() && cv in slots && hash < FILE_HASH_SIZE
      requires forall b | 0 <= b < FILE_HASH_SIZE :: cv !in chains[b]
      modifies this`chains, hashTable, slots`hashNext, slots`hashPrev, slots`hashIndex
      ensures Hashed() && chains == old(chains)[hash := [cv] + old(chains[hash])]
      ensures cv.hashIndex == hash && forall v | v in slots && v != cv :: v.hashIndex == old(v.hashIndex)
    {
      ChainsAreApart(hash);
      cv.hashIndex := hash;
      cv.hashNext := hashTable[hash];
      if hashTable[hash] != null {
        hashTable[hash].hashPrev := cv;
      }
      cv.hashPrev := null;
      hashTable[hash] := cv;
      ghost var was := chains;
      chains := chains[hash := [cv] + chains[hash]];
      forall c | 0 <= c < FILE_HASH_SIZE ensures hashTable[c] == At(chains[c], 0) && Chained(chains[c], c) {
        assert c != hash ==> Apart(was[hash], was[c]);
      }
    }

    constructor ()
      ensures Valid() && order == [] && fresh(hashTable) && fresh(slots)
    {
      var all: seq<Cvar>, i := [], 0;
      while i < MAX_CVARS
        invariant 0 <= i == |all| <= MAX_CVARS && Distinct(all)
        invariant forall k | 0 <= k < |all| :: fresh(all[k]) && all[k].name == None && all[k].state == CLEARED
      {
        var cv := new Cvar();
        all := all + [cv];
        i := i + 1;
      }
      first, modifiedFlags, numIndexes, cheats := null, {}, 0, false;
      indexes, slots := all, set v | v in all;
      hashTable := new Cvar?[FILE_HASH_SIZE](_ => null);
      order, chains := [], seq(FILE_HASH_SIZE, _ => []);
    }

    /** Cvar_FindVar: the only variable with a name, as a search of the whole list would find it */
    method FindVar(name: Text) returns (v: Cvar?)
      requires Valid() && |name| <= LONGEST
      ensures v == Search(order, name)
    {
      hide Listed, Cleared, Slotted, Unique, Search, Distinct, SameName;
      var hash := GenerateHashValue(name);
      assert Chained(chains[hash], hash);
      v := FindInChain(name, hash, chains[hash]);
      if v != null {
        IsOnlyOne(v, name);
      } else {
        IsNowhere(hash, name);
      }
    }

    /** The loop of Cvar_FindVar */
    method FindInChain(name: Text, hash: nat, ghost chain: seq<Cvar>) returns (v: Cvar?)
      requires |name| <= LONGEST && hash < hashTable.Length && hashTable[hash] == At(chain, 0)
      requires Chained(chain, hash) && forall w | w in chain :: w.name.Some? && |w.name.value| <= LONGEST
      ensures v != null ==> v in chain && v.name.Some? && SameName(v.name.value, name)
      ensures v == null ==> forall w | w in chain :: w.name.Some? && !SameName(w.name.value, name)
    {
      hide Distinct, Fold;
      v := hashTable[hash];
      ghost var k := 0;
      while v != null
        invariant 0 <= k <= |chain| && v == At(chain, k)
        invariant forall j | 0 <= j < k :: chain[j].name.Some? && !SameName(chain[j].name.value, name)
        decreases |chain| - k
      {
        assert chain[k] in chain;
        var r := Compare(name, v.name.value);
        if r == 0 {
          return;
        }
        v := v.hashNext;
        k := k + 1;
      }
    }

    lemma IsOnlyOne(v: Cvar, name: string)
      requires Used() && Unique() && v in order && SameName(v.name.value, name)
      ensures Search(order, name) == v
    {
      assert forall w | w in order :: w in slots;
      SearchFinds(order, v, name);
    }

    /** A name that is not in its chain is not in the list. */
    lemma IsNowhere(hash: nat, name: string)
      requires Used() && Bucketed() && hash == HashOf(name)
      requires forall w | w in chains[hash] :: w.name.Some? && !SameName(w.name.value, name)
      ensures Search(order, name) == null
    {
      assert forall w | w in order :: w in slots;
      forall w | w in order ensures !SameName(w.name.value, name) {
        if SameName(w.name.value, name) {
          SameHash(w.name.value, name);
        }
      }
      SearchFails(order, name);
    }

    /** The names and the other fields of all variables but one are as before. */
    twostate predicate OthersStay(new cv: Cvar?)
      reads slots`name, slots`state
    {
      forall v | v in slots && v != cv :: v.name == old(v.name) && v.state == old(v.state)
    }

    /** Cvar_Unset: the variable is taken out of the list and its chain, and its slot is cleared. */
    method Unset(cv: Cvar, ghost k: nat) returns (after: Cvar?)
      requires Valid() && k < |order| && order[k] == cv
      modifies this`first, this`order, this`chains, hashTable, slots
      ensures Valid() && order == Without(old(order), k) && after == At(order, k)
      ensures cv.name == None && OthersStay(cv)
    {
      hide Listed, Hashed, Chained, Without, At, Distinct, Named, IsDropped;
      NextIs(k);
      AtWithout(order, k);
      after := cv.next;
      ghost var j := InChain(cv);
      Drop(cv, k, j);
      StaysNamed(cv);
    }

    /** The other variables keep their place in the list and in the chains. */
    twostate predicate IsDropped(cv: Cvar)
      requires cv in slots
      reads this`order, this`chains, slots`name
    {
      && AllIn(order, slots) && |chains| == |old(chains)| == FILE_HASH_SIZE && cv.name == None
      && (forall v | v in slots :: v in order <==> v in old(order) && v != cv)
      && (forall b, v | 0 <= b < FILE_HASH_SIZE && v in slots :: v in chains[b] <==> v in old(chains)[b] && v != cv)
    }

    twostate lemma StaysNamed(cv: Cvar)
      requires old(Named()) && cv in slots && IsDropped(cv) && OthersStay(cv)
      ensures Named()
    {
      hide SameName, IsName;
      assert forall v | v in order :: v in slots;
    }

    /** Takes a variable out of the list and its chain and clears it. */
    method Drop(cv: Cvar, ghost k: nat, ghost j: nat)
      requires Listed() && k < |order| && order[k] == cv && cv in slots
      requires Hashed() && cv.hashIndex < FILE_HASH_SIZE == |chains|
      requires j < |chains[cv.hashIndex]| && chains[cv.hashIndex][j] == cv
      requires forall b | 0 <= b < FILE_HASH_SIZE && cv in chains[b] :: b == cv.hashIndex
      modifies this`first, this`order, this`chains, hashTable, slots
      ensures Listed() && Hashed() && order == Without(old(order), k)
      ensures cv.name == None && cv.state == CLEARED && OthersStay(cv) && IsDropped(cv)
    {
      hide Listed, Hashed, Chained, Without, At, Distinct, AllIn;
      UnlinkVar(cv, k);
      UnlinkHash(cv, j);
      Clear(cv);
    }

    /** A used variable is in the chain of its hash index. */
    lemma InChain(cv: Cvar) returns (j: nat)
      requires Valid() && cv in order
      ensures cv.hashIndex == HashOf(cv.name.value) && |chains| == FILE_HASH_SIZE
      ensures j < |chains[cv.hashIndex]| && chains[cv.hashIndex][j] == cv
      ensures forall b | 0 <= b < FILE_HASH_SIZE && cv in chains[b] :: b == cv.hashIndex
    {
      assert AllIn(order, slots);
      var c := HashOf(cv.name.value);
      assert Chained(chains[c], c) && cv in chains[c];
      j :| 0 <= j < |chains[c]| && chains[c][j] == cv;
    }

    /** Com_Memset on a variable that is in no list */
    method Clear(cv: Cvar)
      requires Listed() && Hashed() && cv in slots && cv !in order
      requires forall b | 0 <= b < FILE_HASH_SIZE :: cv !in chains[b]
      modifies cv
      ensures Listed() && Hashed() && cv.name == None && cv.state == CLEARED
    {
      cv.name, cv.state := None, CLEARED;
      cv.next, cv.prev, cv.hashNext, cv.hashPrev, cv.hashIndex := null, null, null, null, 0;
    }

    /** The end of Cvar_Get: a free slot becomes the variable. */
    method Create(name: Text, value: string, flags: set<Flag>) returns (v: Cvar?)
      requires Valid() && IsName(name) && Search(order, name) == null
      modifies this`first, this`order, this`chains, this`numIndexes, this`modifiedFlags, hashTable, slots
      ensures Valid() && OthersStay(v) && Creates(v, name, value, flags)
    {
      hide Search, Listed, Hashed, Named, Cleared, IsName, SameName;
      var index := FreeSlot();
      if index >= MAX_CVARS {
        return null;
      }
      v := indexes[index];
      CountSlot(index);
      FreeIsUnlinked(v);
      SearchIsFound(order, name);
      Occupy(v, name, value, flags);
    }

    /** Counts a slot in numIndexes. */
    method CountSlot(index: nat)
      requires Slotted() && Cleared() && index < MAX_CVARS
      modifies this`numIndexes
      ensures Cleared() && numIndexes <= |indexes| && indexes[index] !in indexes[numIndexes..]
    {
      if index >= numIndexes {
        numIndexes := index + 1;
      }
    }

    twostate lemma StaysCleared(v: Cvar)
      requires old(Cleared()) && v.name.Some? && OthersStay(v)
      requires numIndexes == old(numIndexes) <= |indexes| && v !in indexes[numIndexes..]
      ensures Cleared()
    {
      forall i | numIndexes <= i < |indexes| && indexes[i] in slots ensures indexes[i].name == None {
        assert indexes[numIndexes..][i - numIndexes] == indexes[i];
      }
    }

    /** A free slot becomes a variable. */
    method Occupy(v: Cvar, name: Text, value: string, flags: set<Flag>)
      requires Listed() && Hashed() && Named() && Cleared() && numIndexes <= |indexes|
      requires v in slots && v.name == None && v !in order && v !in indexes[numIndexes..]
      requires forall b | 0 <= b < FILE_HASH_SIZE :: v !in chains[b]
      requires IsName(name) && forall w | w in order :: w.name.Some? && !SameName(w.name.value, name)
      modifies this`first, this`order, this`chains, this`modifiedFlags, hashTable, slots
      ensures Listed() && Hashed() && Named() && Cleared() && OthersStay(v) && order == [v] + old(order)
      ensures v.name == Some(name) && v.state == Created(value, flags)
      ensures modifiedFlags == old(modifiedFlags) + flags
    {
      hide Listed, Hashed, Named, Cleared, AllIn, IsName, SameName;
      v.name, v.state := Some(name), Created(value, flags);
      Link(v, name);
      modifiedFlags := modifiedFlags + flags;
      StaysCleared(v);
      BecomesNamed(v);
    }

    lemma FreeIsUnlinked(v: Cvar)
      requires Valid() && v in slots && v.name == None
      ensures v !in order && forall b | 0 <= b < FILE_HASH_SIZE :: v !in chains[b]
      ensures forall w | w in order :: w.name.Some?
    {
      assert forall w | w in order :: w in slots;
    }

    /** Puts a variable into the list and the chain of its name. */
    method Link(v: Cvar, name: Text)
      requires Listed() && v in slots && v !in order
      requires Hashed() && forall b | 0 <= b < FILE_HASH_SIZE :: v !in chains[b]
      modifies this`first, this`order, this`chains, hashTable
      modifies slots`next, slots`prev, slots`hashNext, slots`hashPrev, slots`hashIndex
      ensures Listed() && Hashed() && order == [v] + old(order) && AllIn(order, slots)
      ensures chains == old(chains)[HashOf(name) := [v] + old(chains[HashOf(name)])]
    {
      LinkVar(v);
      var hash := GenerateHashValue(name);
      LinkHash(v, hash);
    }

    twostate lemma BecomesNamed(v: Cvar)
      requires old(Named()) && v in slots && old(v.name) == None && v.name.Some? && OthersStay(v)
      requires order == [v] + old(order) && AllIn(order, slots) && IsName(v.name.value)
      requires
        var h := HashOf(v.name.value);
        chains == old(chains)[h := [v] + old(chains)[h]]
      requires forall w | w in old(order) :: w.name.Some? && !SameName(w.name.value, v.name.value)
      ensures Named()
    {
      hide IsName, HashOf;
      assert forall w | w in order :: w in slots;
    }

    method FreeSlot() returns (index: nat)
      requires Valid()
      ensures index <= MAX_CVARS
      ensures if index < MAX_CVARS then indexes[index].name == None else forall w | w in slots :: w.name.Some?
    {
      index := 0;
      while index < MAX_CVARS
        invariant 0 <= index <= MAX_CVARS && forall i | 0 <= i < index :: indexes[i].name.Some?
      {
        if indexes[index].name == None {
          break;
        }
        index := index + 1;
      }
    }

    /** The end of Cvar_Set2, for a variable that exists */
    method SetFound(cv: Cvar, value: string, force: bool)
      modifies cv`state, this`modifiedFlags
      ensures cv.state == SetTo(old(cv.state), value, force, cheats)
      ensures modifiedFlags == old(modifiedFlags) + if Touches(old(cv.state), value) then old(cv.state.flags) else {}
    {
      var text, flags := Validated(cv.state, value), cv.state.flags;
      if Latch in flags && cv.state.latched.Some? {
        if text == cv.state.text {
          cv.state := cv.state.(latched := None);
          return;
        }
        if Some(text) == cv.state.latched {
          return;
        }
      } else if text == cv.state.text {
        return;
      }
      modifiedFlags := modifiedFlags + flags;
      if !force {
        if Rom in flags || Init in flags {
          return;
        }
        if Latch in flags {
          cv.state := cv.state.(latched := Some(text), modified := true, count := cv.state.count + 1);
          return;
        }
        if Cheat in flags && !cheats {
          return;
        }
      } else {
        cv.state := cv.state.(latched := None);
      }
      cv.state := cv.state.(modified := true, count := cv.state.count + 1);
      cv.state := cv.state.(text := text);
    }

    /** The middle of Cvar_Get: a variable is registered again; the flags that are noted as modified. */
    method Register(cv: Cvar, value: string, flags: set<Flag>) returns (left: set<Flag>)
      modifies cv`state
      ensures cv.state == Registered(old(cv.state), value, flags)
      ensures left == NewFlags(old(cv.state.flags), flags)
    {
      var text := Validated(cv.state, value);
      left := flags;
      if UserCreated in cv.state.flags {
        cv.state := cv.state.(flags := cv.state.flags - {UserCreated}, reset := text);
        if Rom in left {
          cv.state := cv.state.(latched := Some(text));
        }
      }
      if VmCreated in cv.state.flags {
        if VmCreated !in left {
          cv.state := cv.state.(flags := cv.state.flags - {VmCreated});
        }
      } else if VmCreated in left {
        left := left - {VmCreated};
      }
      cv.state := cv.state.(flags := cv.state.flags + left);
      if cv.state.reset == "" {
        cv.state := cv.state.(reset := text);
      }
    }

    /** What Cvar_Get does if there is no variable with a name */
    twostate predicate Creates(new v: Cvar?, name: Text, value: string, flags: set<Flag>)
      reads this`order, this`modifiedFlags, slots`name, slots`state
    {
      if v == null then
        order == old(order) && modifiedFlags == old(modifiedFlags)
        && |indexes| == 1024 && forall w | w in slots :: w.name.Some?
      else
        && v in slots && v !in old(order) && order == [v] + old(order)
        && v.state.text == value && v.state.reset == value && v.state.flags == flags && v.state.latched == None
        && v.name == Some(name) && v.state == Created(value, flags) && modifiedFlags == old(modifiedFlags) + flags
    }

    /** A variable that exists gets another state. */
    twostate predicate Changes(cv: Cvar, new state: State)
      requires cv in slots
      reads this`order, slots`name, slots`state
    {
      order == old(order) && cv.name == old(cv.name) && cv.state == state
    }

    lemma FoundIsUsed(name: string)
      requires Valid()
      ensures var v := Search(order, name); v != null ==> v in slots && v in order && v.name.Some?
    {
      SearchIsFound(order, name);
    }

    /** Cvar_Get */
    method Get(name: Text, value: string, flags: set<Flag>) returns (v: Cvar?)
      requires Valid() && |name| <= LONGEST
      modifies this`first, this`order, this`chains, this`numIndexes, this`modifiedFlags, hashTable, slots
      ensures Valid() && OthersStay(v)
      ensures var w := old(Search(order, Accepted(name)));
        if w == null then Creates(v, Accepted(name), value, flags)
        else
          && v == w && v in slots && Changes(v, Got(old(w.state), value, flags, cheats))
          && modifiedFlags == old(modifiedFlags) + GotTouched(old(w.state), value, flags)
          && IsRegistered(old(w.state), v.state, Validated(old(w.state), value), flags)
      decreases if Search(order, Accepted(name)) == null then 0 else 2
    {
      hide Listed, Hashed, Named, Slotted, Search, SetTo, Touches, Registered, IsRegistered, IsSetBy, IsValidName;
      v := FindVar(Accepted(name));
      FoundIsUsed(Accepted(name));
      if v == null {
        v := Create(Accepted(name), value, flags);
        return;
      }
      GotIsRegistered(v.state, value, flags, cheats);
      var left := Register(v, value, flags);
      match v.state.latched
      case None =>
      case Some(text) =>
        v.state := v.state.(latched := None);
        var _ := Set2(Accepted(name), Some(text), true);
        modifiedFlags := modifiedFlags + left;
    }

    /** Cvar_Set2 */
    method Set2(name: Text, value: Option<string>, force: bool) returns (v: Cvar?)
      requires Valid() && |name| <= LONGEST
      modifies this`first, this`order, this`chains, this`numIndexes, this`modifiedFlags, hashTable, slots
      ensures Valid() && OthersStay(v)
      ensures var w := old(Search(order, Accepted(name)));
        if w != null then
          var text := if value.Some? then value.value else old(w.state.reset);
          && v == w && v in slots && Changes(v, SetTo(old(w.state), text, force, cheats))
          && modifiedFlags == old(modifiedFlags) + (if Touches(old(w.state), text) then old(w.state.flags) else {})
          && IsSetBy(old(w.state), v.state, Validated(old(w.state), text), force, cheats)
          && (v.state.text == Validated(v.state, text) <==> TakesEffect(old(w.state), text, force, cheats))
        else if value == None then v == null && order == old(order)
        else Creates(v, Accepted(name), value.value, if force then {} else {UserCreated})
      decreases 1
    {
      hide Listed, Hashed, Named, Slotted, Search, SetTo, Touches, Registered, IsRegistered, IsSetBy, IsValidName;
      v := FindVar(Accepted(name));
      FoundIsUsed(Accepted(name));
      if v == null {
        if value == None {
          return;
        }
        v := Get(Accepted(name), value.value, if force then {} else {UserCreated});
        return;
      }
      SetIsCounted(v.state, if value.Some? then value.value else v.state.reset, force, cheats);
      SetTakesEffect(v.state, if value.Some? then value.value else v.state.reset, force, cheats);
      SetFound(v, if value.Some? then value.value else v.state.reset, force);
    }

    /** A variable is the one that is found under its name. */
    lemma FindsItself(v: Cvar)
      requires Valid() && v in order
      ensures v in slots && v.name.Some? && |v.name.value| <= LONGEST && Search(order, Accepted(v.name.value)) == v
    {
      assert forall w | w in order :: w in slots;
      hide Search;
      SearchFinds(order, v, v.name.value);
    }

    /** Sets a variable to its reset text unless it is protected. */
    method Reset(cv: Cvar)
      requires Valid() && cv in order
      modifies this`first, this`order, this`chains, this`numIndexes, this`modifiedFlags, hashTable, slots
      ensures Valid() && OthersStay(cv) && cv in slots && Changes(cv, Restarted(old(cv.state), cheats))
      ensures cv.state.text == Validated(cv.state, cv.state.reset) <==>
        || old(cv.state.text) == Validated(old(cv.state), old(cv.state.reset))
        || !(IsProtected(old(cv.state), cheats) || NoRestart in old(cv.state.flags) || Latch in old(cv.state.flags))
    {
      RestartedIsReset(cv.state, cheats);
      FindsItself(cv);
      hide Listed, Hashed, Named, Slotted, Cleared, Search, SetTo, Accepted;
      if Rom !in cv.state.flags && Init !in cv.state.flags && NoRestart !in cv.state.flags {
        var _ := Set2(cv.name.value, Some(cv.state.reset), false);
      }
    }

    /** The names and states of all variables */
    ghost function Snapshot(): map<Cvar, (Option<Text>, State)>
      reads slots`name, slots`state
    {
      map v | v in slots :: (v.name, v.state)
    }

    /** The variables that Cvar_Restart throws out */
    static ghost function Thrown(snap: map<Cvar, (Option<Text>, State)>, unsetVM: bool): set<Cvar> {
      set v | v in snap && IsThrown(snap[v].1.flags, unsetVM)
    }

    ghost predicate Same(s: seq<Cvar>, snap: map<Cvar, (Option<Text>, State)>)
      reads slots`name, slots`state
    {
      forall i | 0 <= i < |s| :: s[i] in slots && s[i] in snap && (s[i].name, s[i].state) == snap[s[i]]
    }

    ghost predicate Done(s: seq<Cvar>, snap: map<Cvar, (Option<Text>, State)>)
      reads this`cheats, slots`name, slots`state
    {
      forall i | 0 <= i < |s| ::
        && s[i] in slots && s[i] in snap
        && s[i].name == snap[s[i]].0 && s[i].state == Restarted(snap[s[i]].1, cheats)
    }

    /** The first m variables have been visited, and k of them kept. */
    ghost predicate Progress(k: nat, m: nat, was: seq<Cvar>, thrown: set<Cvar>,
                             snap: map<Cvar, (Option<Text>, State)>)
      reads this`order, this`cheats, slots`name, slots`state
    {
      && k <= |order| && m <= |was| && order[k..] == was[m..] && order[..k] == Kept(was[..m], thrown)
      && Same(order[k..], snap) && Done(order[..k], snap)
    }

    /** Cvar_Restart: the variables of the user, and of the game if asked, go; the others are reset. */
    method Restart(unsetVM: bool)
      requires Valid()
      modifies this`first, this`order, this`chains, this`numIndexes, this`modifiedFlags, hashTable, slots
      ensures Valid() && order == Kept(old(order), Thrown(old(Snapshot()), unsetVM)) && Done(order, old(Snapshot()))
    {
      hide Valid, Kept, Progress, Thrown, Snapshot, Done;
      ghost var was, snap, k, m := order, Snapshot(), 0, 0;
      ghost var thrown := Thrown(snap, unsetVM);
      var curvar := first;
      FirstIs();
      ProgressStarts(thrown);
      while curvar != null
        invariant Valid() && curvar == At(order, k) && Progress(k, m, was, thrown, snap)
        decreases |was| - m
      {
        VisitNext(k, m, was, unsetVM, snap);
        if UserCreated in curvar.state.flags || (unsetVM && VmCreated in curvar.state.flags) {
          curvar := ThrowOut(curvar, k, m, was, thrown, snap);
        } else {
          curvar := Keep(curvar, k, m, was, thrown, snap);
          k := k + 1;
        }
        m := m + 1;
      }
      ProgressEnds(k, m, was, thrown, snap);
    }

    lemma VisitNext(k: nat, m: nat, was: seq<Cvar>, unsetVM: bool, snap: map<Cvar, (Option<Text>, State)>)
      requires Valid() && Progress(k, m, was, Thrown(snap, unsetVM), snap) && k < |order|
      ensures order[k] in Thrown(snap, unsetVM) <==> IsThrown(order[k].state.flags, unsetVM)
    {
      Prepare(k, m, was, Thrown(snap, unsetVM), snap);
      hide Valid, Progress;
      assert [order[k]][0] == order[k];
    }

    lemma FirstIs()
      requires Valid()
      ensures first == At(order, 0)
    {
    }

    lemma ProgressStarts(thrown: set<Cvar>)
      requires Valid()
      ensures Progress(0, 0, order, thrown, Snapshot())
    {
      assert AllIn(order, slots) && order[0..] == order && order[..0] == [];
      hide Valid;
    }

    lemma ProgressEnds(k: nat, m: nat, was: seq<Cvar>, thrown: set<Cvar>, snap: map<Cvar, (Option<Text>, State)>)
      requires Progress(k, m, was, thrown, snap) && At(order, k) == null
      ensures order == Kept(was, thrown) && Done(order, snap)
    {
      hide Done, Same;
      assert order[..k] == order && |was[m..]| == 0 && was[..m] == was;
    }

    method ThrowOut(cv: Cvar, ghost k: nat, ghost m: nat, ghost was: seq<Cvar>, ghost thrown: set<Cvar>,
        ghost snap: map<Cvar, (Option<Text>, State)>)
      returns (after: Cvar?)
      requires Valid() && Progress(k, m, was, thrown, snap) && k < |order| && order[k] == cv && cv in thrown
      modifies this`first, this`order, this`chains, hashTable, slots
      ensures Valid() && after == At(order, k) && m < |was| && Progress(k, m + 1, was, thrown, snap)
    {
      hide Valid, Kept, At, Without, Same, Done;
      Prepare(k, m, was, thrown, snap);
      KeptOne(was, m, thrown);
      ghost var done, rest := order[..k], was[m + 1..];
      after := UnsetOne(cv, k, done, rest, snap);
      assert order[..k] == done && order[k..] == rest;
    }

    /** Unsetting a variable does not change others. */
    method UnsetOne(cv: Cvar, ghost k: nat, ghost done: seq<Cvar>, ghost rest: seq<Cvar>,
        ghost snap: map<Cvar, (Option<Text>, State)>)
      returns (after: Cvar?)
      requires Valid() && k < |order| && order[k] == cv && cv !in done && cv !in rest
      requires Done(done, snap) && Same(rest, snap)
      modifies this`first, this`order, this`chains, hashTable, slots
      ensures Valid() && order == Without(old(order), k) && after == At(order, k)
      ensures Done(done, snap) && Same(rest, snap)
    {
      hide Valid, At, Without, Restarted;
      after := Unset(cv, k);
    }

    /** Resetting a variable does not change others. */
    method ResetOne(cv: Cvar, ghost done: seq<Cvar>, ghost rest: seq<Cvar>,
        ghost snap: map<Cvar, (Option<Text>, State)>)
      requires Valid() && cv in order && cv !in done && cv !in rest
      requires Done(done, snap) && Same(rest, snap) && Same([cv], snap)
      modifies this`first, this`order, this`chains, this`numIndexes, this`modifiedFlags, hashTable, slots
      ensures Valid() && order == old(order) && Done(done, snap) && Same(rest, snap) && Done([cv], snap)
    {
      hide Valid, Restarted;
      assert [cv][0] == cv;
      Reset(cv);
    }

    lemma DoneBoth(s: seq<Cvar>, t: seq<Cvar>, snap: map<Cvar, (Option<Text>, State)>)
      requires Done(s, snap) && Done(t, snap)
      ensures Done(s + t, snap)
    {
    }

    lemma NextIs(k: nat)
      requires Valid() && k < |order|
      ensures order[k] in slots && order[k].next == At(order, k + 1) && Distinct(order)
    {
    }

    /** What is known of the variable that is visited next */
    lemma Prepare(k: nat, m: nat, was: seq<Cvar>, thrown: set<Cvar>, snap: map<Cvar, (Option<Text>, State)>)
      requires Valid() && Progress(k, m, was, thrown, snap) && k < |order|
      ensures m < |was| && order[k] in order && order[k] in slots && order[k].next == At(order, k + 1)
      ensures order[k] == was[m] && order[k + 1..] == was[m + 1..] && order[..k + 1] == order[..k] + [order[k]]
      ensures Without(order, k)[..k] == order[..k] && Without(order, k)[k..] == was[m + 1..]
      ensures order[k] !in order[..k] && order[k] !in was[m + 1..]
      ensures Same(was[m + 1..], snap) && Same([order[k]], snap)
    {
      hide Valid, Kept, Without, At;
      NextIs(k);
      AdvanceOne(order, was, k, m);
      hide Distinct;
      IsApart(order, k);
      var rest, next := order[k..], was[m + 1..];
      assert order[k] == rest[0];
      forall i | 0 <= i < |next| ensures next[i] == rest[i + 1] {
      }
    }

    method Keep(cv: Cvar, ghost k: nat, ghost m: nat, ghost was: seq<Cvar>, ghost thrown: set<Cvar>,
        ghost snap: map<Cvar, (Option<Text>, State)>)
      returns (after: Cvar?)
      requires Valid() && Progress(k, m, was, thrown, snap) && k < |order| && order[k] == cv && cv !in thrown
      modifies this`first, this`order, this`chains, this`numIndexes, this`modifiedFlags, hashTable, slots
      ensures Valid() && after == At(order, k + 1) && m < |was| && Progress(k + 1, m + 1, was, thrown, snap)
    {
      hide Valid, Kept, At, Without, Same, Done;
      Prepare(k, m, was, thrown, snap);
      KeptOne(was, m, thrown);
      ghost var done, rest := order[..k], was[m + 1..];
      ResetOne(cv, done, rest, snap);
      DoneBoth(done, [cv], snap);
      NextIs(k);
      after := cv.next;
    }
  }

  lemma IsApart(s: seq<Cvar>, k: nat)
    requires k < |s| && Distinct(s)
    ensures s[k] in s && s[k] !in s[..k] && s[k] !in s[k + 1..]
  {
  }

  lemma AdvanceOne(s: seq<Cvar>, was: seq<Cvar>, k: nat, m: nat)
    requires k < |s| && m <= |was| && s[k..] == was[m..]
    ensures m < |was| && s[k] == was[m] && s[k + 1..] == was[m + 1..] && s[..k + 1] == s[..k] + [s[k]]
    ensures Without(s, k)[..k] == s[..k] && Without(s, k)[k..] == was[m + 1..]
  {
    assert s[k] == s[k..][0] && s[k + 1..] == s[k..][1..];
  }

  /** The variables that are not thrown out, in order */
  ghost function Kept(s: seq<Cvar>, thrown: set<Cvar>): seq<Cvar> {
    if s == [] then []
    else Kept(s[..|s| - 1], thrown) + if s[|s| - 1] in thrown then [] else [s[|s| - 1]]
  }

  lemma KeptOne(s: seq<Cvar>, m: nat, thrown: set<Cvar>)
    requires m < |s|
    ensures Kept(s[..m + 1], thrown) == Kept(s[..m], thrown) + if s[m] in thrown then [] else [s[m]]
  {
    assert s[..m + 1][..m] == s[..m];
  }

  /** The name that is used for a name */
  function Accepted(name: Text): (r: Text)
    ensures IsValidName(r) && (|name| <= LONGEST ==> |r| <= LONGEST)
  {
    if IsValidName(name) then name else "BADNAME"
  }

  lemma {:induction false} SearchFails(s: seq<Cvar>, name: string)
    requires forall w | w in s :: w.name.Some? && !SameName(w.name.value, name)
    ensures Search(s, name) == null
  {
    if s != [] {
      assert s[0] in s;
      SearchFails(s[1..], name);
    }
  }

  /** The only variable with a name is found. */
  lemma {:induction false} SearchFinds(s: seq<Cvar>, v: Cvar, name: string)
    requires v in s && v.name.Some? && SameName(v.name.value, name)
    requires forall w | w in s && w != v :: w.name.Some? && !SameName(w.name.value, name)
    ensures Search(s, name) == v
  {
    if s[0] != v {
      assert s[0] in s;
      SearchFinds(s[1..], v, name);
    }
  }

  lemma {:induction false} SearchIsFound(s: seq<Cvar>, name: string)
    ensures var v := Search(s, name);
      if v == null then forall w | w in s && w.name.Some? :: !SameName(w.name.value, name)
      else v in s && v.name.Some? && SameName(v.name.value, name)
  {
    if s != [] {
      SearchIsFound(s[1..], name);
    }
  }
}
