/**
  The delta encodings of Shared/msg.c: entity states against an earlier state, and user commands
  masked with a key.
 */
module MsgDelta {
  import opened BitStream
  import opened Words
  import opened Options
  import opened HuffmanTree
  import opened MsgCode

  const GENTITYNUM_BITS := 10
  const MAX_GENTITIES := 1024
  const FLOAT_INT_BITS := 13
  const FLOAT_INT_BIAS := 4096

  /** An entity: its number and its other 32-bit words, in the order of the field table. */
  datatype Entity = Entity(number: int, words: seq<int>)

  /** The widths of a field table, 0 for a float. The number of changes is sent as a byte. */
  predicate Table(fields: seq<int>) {
    |fields| < 256 && forall i | 0 <= i < |fields| :: fields[i] == 0 || Width(fields[i])
  }

  predicate AreWords(words: seq<int>) {
    forall i | 0 <= i < |words| :: Int32(words[i])
  }

  /** The float in a word is 0 or -0. */
  predicate FloatIsZero(w: int) {
    w == 0 || w == -0x8000_0000
  }

  /** m / 2^d, if that is a whole number. */
  function Halved(m: nat, d: nat): (r: Option<nat>)
    ensures r.Some? ==> r.value * Pow2(d) == m
  {
    if d == 0 then Some(m)
    else if m % 2 == 1 then None
    else
      var r := Halved(m / 2, d - 1);
      Exact(r, m, d);
      r
  }

  lemma Exact(r: Option<nat>, m: nat, d: nat)
    requires d > 0 && m % 2 == 0 && (r.Some? ==> r.value * Pow2(d - 1) == m / 2)
    ensures r.Some? ==> r.value * Pow2(d) == m
  {
    if r.Some? { Doubled(Pow2(d - 1), r.value); }
  }

  /** The value of the float in a word, if it is a whole number that FLOAT_INT_BITS can carry. */
  function SmallInt(w: int): Option<int>
    requires Int32(w)
  {
    var u := if w < 0 then w + 0x8000_0000 else w;
    var exponent, mantissa := u / 0x80_0000, 0x80_0000 + u % 0x80_0000;
    if !(127 <= exponent <= 150) then None
    else
      match Halved(mantissa, 150 - exponent)
      case None => None
      case Some(a) =>
        var k := if w < 0 then -(a as int) else a;
        if 0 <= k + FLOAT_INT_BIAS < 2 * FLOAT_INT_BIAS then Some(k) else None
  }

  /** The mantissa of a, with its leading bit, and how far it was shifted. */
  function Normalized(a: nat, d: nat): (nat, nat)
    requires a > 0
    decreases 0x80_0000 - a
  {
    if a >= 0x80_0000 then (a, d) else Normalized(2 * a, d + 1)
  }

  /** The word that holds the float k. */
  function FloatWord(k: int): int
    requires -0x80_0000 <= k <= 0x80_0000
  {
    if k == 0 then 0
    else
      var (m, d) := Normalized(Abs(k), 0);
      (150 - d) * 0x80_0000 + m - 0x80_0000 - if k < 0 then 0x8000_0000 else 0
  }

  lemma {:induction false} NormalizedIs(a: nat, d: nat, c: nat)
    requires 0x80_0000 <= a * Pow2(d) < 0x100_0000
    ensures a > 0 && Normalized(a, c) == (a * Pow2(d), c + d)
    decreases d
  {
    if d > 0 {
      Doubled(Pow2(d - 1), a);
      Doubled(a, Pow2(d - 1));
      assert a * Pow2(d) >= 2 * a;
      NormalizedIs(2 * a, d - 1, c + 1);
    }
  }

  /** A float that is sent as a small integer is rebuilt bit for bit. */
  lemma SmallIntIsExact(w: int)
    requires Int32(w) && SmallInt(w).Some?
    ensures SmallInt(w).value != 0 && FloatWord(SmallInt(w).value) == w
  {
    var u := if w < 0 then w + 0x8000_0000 else w;
    var exponent, mantissa := u / 0x80_0000, 0x80_0000 + u % 0x80_0000;
    var d := 150 - exponent;
    var a := Halved(mantissa, d).value;
    NormalizedIs(a, d, 0);
  }

  /** The float in a word (IEEE 754, single precision, not subnormal) is the whole number k. */
  predicate FloatIs(w: int, k: int)
    requires Int32(w)
  {
    var u := if w < 0 then w + 0x8000_0000 else w;
    var exponent, mantissa := u / 0x80_0000, 0x80_0000 + u % 0x80_0000;
    k != 0 && (k < 0 <==> w < 0) && 127 <= exponent <= 150 && mantissa == Abs(k) * Pow2(150 - exponent)
  }

  lemma {:induction false} HalvedBack(a: nat, d: nat)
    ensures Halved(a * Pow2(d), d) == Some(a)
  {
    if d > 0 {
      Doubled(Pow2(d - 1), a);
      assert a * Pow2(d) == 2 * (a * Pow2(d - 1));
      HalvedBack(a, d - 1);
    }
  }

  /** A float is sent as a small integer exactly if it is one: a whole number other than 0 from -4096 to 4095. */
  lemma SmallIntIs(w: int, k: int)
    requires Int32(w)
    ensures SmallInt(w) == Some(k) <==> FloatIs(w, k) && -4096 <= k < 4096
  {
    var u := if w < 0 then w + 0x8000_0000 else w;
    var exponent, mantissa := u / 0x80_0000, 0x80_0000 + u % 0x80_0000;
    if 127 <= exponent <= 150 {
      var d := 150 - exponent;
      if FloatIs(w, k) { HalvedBack(Abs(k), d); }
      if SmallInt(w) == Some(k) {
        var a := Halved(mantissa, d).value;
        assert a * Pow2(d) == mantissa && Abs(k) == a;
      }
    }
  }

  function FloatItems(w: int): seq<Item>
    requires Int32(w)
  {
    if FloatIsZero(w) then [Item(0, 1)]
    else
      match SmallInt(w)
      case Some(k) => [Item(1, 1), Item(0, 1), Item(k + FLOAT_INT_BIAS, FLOAT_INT_BITS)]
      case None => [Item(1, 1), Item(1, 1), Item(w, 32)]
  }

  /** What MSG_WriteDeltaEntity writes for one field. */
  function FieldItems(width: int, from: int, to: int): seq<Item>
    requires Int32(to)
  {
    if from == to then [Item(0, 1)]
    else if width == 0 then [Item(1, 1)] + FloatItems(to)
    else if to == 0 then [Item(1, 1), Item(0, 1)]
    else [Item(1, 1), Item(1, 1), Item(to, width)]
  }

  function FieldsItems(fields: seq<int>, from: seq<int>, to: seq<int>): seq<Item>
    requires |fields| == |from| == |to| && AreWords(to)
  {
    if fields == [] then []
    else FieldItems(fields[0], from[0], to[0]) + FieldsItems(fields[1..], from[1..], to[1..])
  }

  /** One more than the index of the last difference, 0 if there is none. */
  function LastChange(from: seq<int>, to: seq<int>): (lc: nat)
    requires |from| == |to|
    ensures lc <= |from| && from[lc..] == to[lc..]
    ensures lc > 0 ==> from[lc - 1] != to[lc - 1]
  {
    var n := |from|;
    if n == 0 then 0
    else if from[n - 1] != to[n - 1] then n
    else
      var lc := LastChange(from[..n - 1], to[..n - 1]);
      assert from[lc..] == from[..n - 1][lc..] + [from[n - 1]];
      assert to[lc..] == to[..n - 1][lc..] + [to[n - 1]];
      lc
  }

  /** What follows the number of an entity of which the given fields may have changed. */
  function DeltaItems(fields: seq<int>, from: seq<int>, to: seq<int>): seq<Item>
    requires |fields| == |from| == |to| && AreWords(to)
  {
    [Item(0, 1), Item(1, 1), Item(|fields|, 8)] + FieldsItems(fields, from, to)
  }

  /** What MSG_WriteDeltaEntity writes for a state that goes on to exist. */
  function EntityItems(fields: seq<int>, from: seq<int>, to: Entity, force: bool): seq<Item>
    requires |fields| == |from| == |to.words| && AreWords(to.words)
  {
    var lc := LastChange(from, to.words);
    if lc == 0 && !force then []
    else if lc == 0 then [Item(to.number, GENTITYNUM_BITS), Item(0, 1), Item(0, 1)]
    else [Item(to.number, GENTITYNUM_BITS)] + DeltaItems(fields[..lc], from[..lc], to.words[..lc])
  }

  function RemoveItems(number: int): seq<Item> {
    [Item(number, GENTITYNUM_BITS), Item(1, 1)]
  }

  /** What MSG_ReadDeltaEntity reads for one field. */
  function ReadWord(t: Tree, bits: seq<bool>, width: int, from: int): (r: Read<int>)
    requires t.Shaped() && (width == 0 || Width(width))
    ensures !r.Dropped?
  {
    var (changed, rest) :- ReadInt(t, bits, 1);
    if changed == 0 then Value(from, rest)
    else
      var (given, rest) :- ReadInt(t, rest, 1);
      if given == 0 then Value(0, rest)
      else if width != 0 then ReadInt(t, rest, width)
      else
        var (full, rest) :- ReadInt(t, rest, 1);
        if full != 0 then ReadInt(t, rest, 32)
        else
          var (trunc, rest) :- ReadInt(t, rest, FLOAT_INT_BITS);
          if 0 <= trunc < 2 * FLOAT_INT_BIAS then Value(FloatWord(trunc - FLOAT_INT_BIAS), rest) else Short
  }

  function ReadWords(t: Tree, bits: seq<bool>, fields: seq<int>, from: seq<int>): (r: Read<seq<int>>)
    requires t.Shaped() && Table(fields) && |fields| == |from|
    ensures !r.Dropped? && (r.Value? ==> |r.v| == |fields|)
    decreases |fields|
  {
    if fields == [] then Value([], bits)
    else
      var (w, rest) :- ReadWord(t, bits, fields[0], from[0]);
      var (ws, rest) :- ReadWords(t, rest, fields[1..], from[1..]);
      Value([w] + ws, rest)
  }

  /** MSG_ReadDeltaEntity, once the entity's number has been read. */
  function ReadEntity(t: Tree, bits: seq<bool>, fields: seq<int>, from: seq<int>, number: int): Read<Entity>
    requires t.Shaped() && Table(fields) && |fields| == |from|
  {
    if !(0 <= number < MAX_GENTITIES) then Dropped
    else
      var (removed, rest) :- ReadInt(t, bits, 1);
      if removed == 1 then Value(Entity(MAX_GENTITIES - 1, seq(|fields|, i => 0)), rest)
      else
        var (delta, rest) :- ReadInt(t, rest, 1);
        if delta == 0 then Value(Entity(number, from), rest)
        else
          var (lc, rest) :- ReadInt(t, rest, 8);
          if lc > |fields| || lc < 0 then Dropped
          else
            var (words, rest) :- ReadWords(t, rest, fields[..lc], from[..lc]);
            Value(Entity(number, words + from[lc..]), rest)
  }

  /** What a receiver makes of a word that was sent: -0 becomes 0, integers are cut to their width. */
  function Received(width: int, w: int): int
    requires width == 0 || Width(width)
  {
    if width == 0 then if FloatIsZero(w) then 0 else w else ReadsAs(w, width)
  }

  /** The words a receiver that holds `held` has after the change from `from` to `to`. */
  function Updated(fields: seq<int>, from: seq<int>, to: seq<int>, held: seq<int>): (r: seq<int>)
    requires Table(fields) && |fields| == |from| == |to| == |held|
    ensures |r| == |fields|
  {
    seq(|fields|, i requires 0 <= i < |fields| => if from[i] == to[i] then held[i] else Received(fields[i], to[i]))
  }

  lemma OneBit(b: int)
    requires 0 <= b < 2
    ensures Width(1) && ReadsAs(b, 1) == b
  {
    assert Pow2(1) == 2 * Pow2(0);
    ReadsAsWritten(b, 1);
  }

  lemma StreamUnfolds(s: Fgk, i: Item, items: seq<Item>, rest: seq<bool>)
    requires Complete(s)
    ensures Stream(s, [i] + items) + rest == Field(s, Masked(i.value, i.bits), Abs(i.bits)) + (Stream(s, items) + rest)
  {
    assert ([i] + items)[1..] == items;
  }

  /** Reading the first of some items. */
  lemma ReadsFirst(s: Fgk, i: Item, items: seq<Item>, rest: seq<bool>)
    requires Complete(s) && Width(i.bits)
    ensures s.tree.Shaped()
    ensures ReadInt(s.tree, Stream(s, [i] + items) + rest, i.bits)
      == Value(ReadsAs(i.value, i.bits), Stream(s, items) + rest)
  {
    hide Complete, Field, ReadInt, ReadsAs, Stream;
    StreamUnfolds(s, i, items, rest);
    IntReadsBack(s, i.value, i.bits, Stream(s, items) + rest);
  }

  lemma ReadsLast(s: Fgk, i: Item, rest: seq<bool>)
    requires Complete(s) && Width(i.bits)
    ensures s.tree.Shaped()
    ensures ReadInt(s.tree, Stream(s, [i]) + rest, i.bits) == Value(ReadsAs(i.value, i.bits), rest)
  {
    hide Complete, Field, ReadInt, ReadsAs;
    ReadsFirst(s, i, [], rest);
    assert [i] + [] == [i] && Stream(s, []) + rest == rest;
  }

  lemma ReadsTwo(s: Fgk, a: int, b: Item, rest: seq<bool>)
    requires Complete(s) && 0 <= a < 2 && Width(b.bits)
    ensures s.tree.Shaped()
    ensures ReadInt(s.tree, Stream(s, [Item(a, 1), b]) + rest, 1) == Value(a, Stream(s, [b]) + rest)
    ensures ReadInt(s.tree, Stream(s, [b]) + rest, b.bits) == Value(ReadsAs(b.value, b.bits), rest)
  {
    hide Complete, Field, ReadInt, ReadsAs, Stream;
    OneBit(a);
    ReadsFirst(s, Item(a, 1), [b], rest);
    ReadsLast(s, b, rest);
    assert [Item(a, 1)] + [b] == [Item(a, 1), b];
  }

  lemma ReadsBit(s: Fgk, a: int, items: seq<Item>, rest: seq<bool>)
    requires Complete(s) && 0 <= a < 2 && items != [] && items[0] == Item(a, 1)
    ensures s.tree.Shaped()
    ensures ReadInt(s.tree, Stream(s, items) + rest, 1) == Value(a, Stream(s, items[1..]) + rest)
  {
    hide Complete, Field, ReadInt, ReadsAs, Stream;
    OneBit(a);
    ReadsFirst(s, Item(a, 1), items[1..], rest);
    assert [Item(a, 1)] + items[1..] == items;
  }

  lemma WidthsUsed()
    ensures Pow2(10) == 1024 && Pow2(13) == 8192
  {
    PowersUsed();
    assert Pow2(10) == 2 * Pow2(9) == 4 * Pow2(8);
    assert Pow2(13) == 2 * Pow2(12) == 4 * Pow2(11) == 8 * Pow2(10);
  }

  /** What is read for a field that has changed. */
  lemma ChangeReadsBack(s: Fgk, width: int, from: int, to: int, held: int, rest: seq<bool>)
    requires Complete(s) && (width == 0 || Width(width)) && Int32(to) && from != to
    ensures s.tree.Shaped()
    ensures ReadWord(s.tree, Stream(s, FieldItems(width, from, to)) + rest, width, held)
      == Value(Received(width, to), rest)
  {
    hide Complete, Field, ReadInt, Stream, ReadsAs, SmallInt, FloatWord, Pow2;
    var items := FieldItems(width, from, to);
    ReadsBit(s, 1, items, rest);
    var more := items[1..];
    if width != 0 && to == 0 {
      ReadsBit(s, 0, more, rest);
      assert more[1..] == [] && Stream(s, []) + rest == rest by { EmptyStream(s, rest); }
      assert ReadsAs(0, width) == 0 by { ZeroReadsBack(width); }
    } else if width != 0 {
      ReadsBit(s, 1, more, rest);
      assert more[1..] == [Item(to, width)];
      ReadsLast(s, Item(to, width), rest);
    } else {
      assert more == FloatItems(to);
      FloatReadsBack(s, to, rest);
    }
  }

  lemma EmptyStream(s: Fgk, rest: seq<bool>)
    requires Complete(s)
    ensures s.tree.Shaped() && Stream(s, []) + rest == rest
  {
  }

  lemma ZeroReadsBack(width: int)
    requires Width(width)
    ensures ReadsAs(0, width) == 0
  {
    ReadsAsWritten(0, width);
    if width < 0 && Whole(width) > 0 { ZeroHasNoBits(Whole(width) - 1); }
  }

  lemma {:induction false} ZeroHasNoBits(k: nat)
    ensures !Bit(0, k)
  {
    if k > 0 { ZeroHasNoBits(k - 1); }
  }

  /** The part of ReadWord that reads a float. */
  lemma FloatReadsBack(s: Fgk, w: int, rest: seq<bool>)
    requires Complete(s) && Int32(w)
    ensures s.tree.Shaped()
    ensures
      var bits := Stream(s, FloatItems(w)) + rest;
      if FloatIsZero(w) then ReadInt(s.tree, bits, 1) == Value(0, rest)
      else
        && ReadInt(s.tree, bits, 1).Value? && ReadInt(s.tree, bits, 1).v == 1
        && var more := ReadInt(s.tree, bits, 1).rest;
        match SmallInt(w)
        case None => ReadInt(s.tree, more, 1) == Value(1, Stream(s, [Item(w, 32)]) + rest)
          && ReadInt(s.tree, Stream(s, [Item(w, 32)]) + rest, 32) == Value(w, rest)
        case Some(k) =>
          var last := [Item(k + FLOAT_INT_BIAS, FLOAT_INT_BITS)];
          && ReadInt(s.tree, more, 1) == Value(0, Stream(s, last) + rest)
          && ReadInt(s.tree, Stream(s, last) + rest, FLOAT_INT_BITS) == Value(k + FLOAT_INT_BIAS, rest)
          && 0 <= k + FLOAT_INT_BIAS < 2 * FLOAT_INT_BIAS && FloatWord(k) == w
  {
    hide Complete, Field, ReadInt, Stream, ReadsAs, FloatWord, Pow2;
    var items := FloatItems(w);
    if FloatIsZero(w) {
      ReadsBit(s, 0, items, rest);
      assert items[1..] == [];
      EmptyStream(s, rest);
    } else {
      ReadsBit(s, 1, items, rest);
      if SmallInt(w).None? {
        assert items[1..] == [Item(1, 1), Item(w, 32)];
        ReadsTwo(s, 1, Item(w, 32), rest);
        ReadsAsWritten(w, 32);
      } else {
        var k := SmallInt(w).value + FLOAT_INT_BIAS;
        assert items[1..] == [Item(0, 1), Item(k, FLOAT_INT_BITS)];
        ReadsTwo(s, 0, Item(k, FLOAT_INT_BITS), rest);
        WidthsUsed();
        ReadsAsWritten(k, FLOAT_INT_BITS);
        SmallIntIsExact(w);
      }
    }
  }

  lemma WordReadsBack(s: Fgk, width: int, from: int, to: int, held: int, rest: seq<bool>)
    requires Complete(s) && (width == 0 || Width(width)) && Int32(to)
    ensures s.tree.Shaped()
    ensures ReadWord(s.tree, Stream(s, FieldItems(width, from, to)) + rest, width, held)
      == Value(if from == to then held else Received(width, to), rest)
  {
    hide Complete, Field, ReadInt, Stream, ReadsAs, FloatWord, FloatItems, Received;
    if from == to {
      assert [Item(0, 1)][1..] == [];
      ReadsBit(s, 0, [Item(0, 1)], rest);
      EmptyStream(s, rest);
    } else {
      ChangeReadsBack(s, width, from, to, held, rest);
    }
  }

  lemma {:induction false} WordsReadBack(s: Fgk, fields: seq<int>, from: seq<int>, to: seq<int>, held: seq<int>,
          rest: seq<bool>)
    requires Complete(s) && Table(fields) && |fields| == |from| == |to| == |held| && AreWords(to)
    ensures s.tree.Shaped()
    ensures ReadWords(s.tree, Stream(s, FieldsItems(fields, from, to)) + rest, fields, held)
      == Value(Updated(fields, from, to, held), rest)
    decreases |fields|
  {
    hide Complete, Field, ReadWord, Stream, FieldItems, Received;
    if fields == [] {
      EmptyStream(s, rest);
    } else {
      var first, more := FieldItems(fields[0], from[0], to[0]), FieldsItems(fields[1..], from[1..], to[1..]);
      StreamJoins(s, first, more);
      assert Stream(s, first + more) + rest == Stream(s, first) + (Stream(s, more) + rest);
      WordReadsBack(s, fields[0], from[0], to[0], held[0], Stream(s, more) + rest);
      WordsReadBack(s, fields[1..], from[1..], to[1..], held[1..], rest);
      assert Updated(fields, from, to, held)
        == [if from[0] == to[0] then held[0] else Received(fields[0], to[0])]
           + Updated(fields[1..], from[1..], to[1..], held[1..]);
    }
  }

  /** Reading an entity's delta updates what the receiver holds by what the sender changed. */
  lemma EntityReadsBack(s: Fgk, fields: seq<int>, from: seq<int>, to: Entity, force: bool, held: seq<int>,
          rest: seq<bool>)
    requires Complete(s) && Table(fields) && |fields| == |from| == |to.words| == |held| && AreWords(to.words)
    requires 0 <= to.number < MAX_GENTITIES
    ensures EntityItems(fields, from, to, force) == [] <==> from == to.words && !force
    ensures s.tree.Shaped()
    ensures EntityItems(fields, from, to, force) != [] ==>
      var number := ReadInt(s.tree, Stream(s, EntityItems(fields, from, to, force)) + rest, GENTITYNUM_BITS);
      && number.Value? && number.v == to.number
      && ReadEntity(s.tree, number.rest, fields, held, to.number)
         == Value(Entity(to.number, Updated(fields, from, to.words, held)), rest)
  {
    hide Complete, Field, ReadInt, Stream, ReadsAs, ReadWords, Received, FieldsItems, DeltaItems, ReadEntity, Updated;
    EmptyStream(s, rest);
    var lc, items := LastChange(from, to.words), EntityItems(fields, from, to, force);
    assert lc > 0 ==> from[lc - 1] != to.words[lc - 1];
    assert from[0..] == from && to.words[0..] == to.words;
    if items != [] {
      var number := Item(to.number, GENTITYNUM_BITS);
      WidthsUsed();
      ReadsAsWritten(to.number, GENTITYNUM_BITS);
      assert items == [number] + items[1..];
      ReadsFirst(s, number, items[1..], rest);
      if lc == 0 {
        assert items[1..] == [Item(0, 1), Item(0, 1)];
        NoDeltaReadsBack(s, fields, held, to.number, rest);
        NothingUpdated(fields, from, to.words, held);
      } else {
        assert items[1..] == DeltaItems(fields[..lc], from[..lc], to.words[..lc]);
        DeltaReadsBack(s, fields, from, to, held, rest);
      }
    }
  }

  lemma NothingUpdated(fields: seq<int>, from: seq<int>, to: seq<int>, held: seq<int>)
    requires Table(fields) && |fields| == |from| == |to| == |held| && from == to
    ensures Updated(fields, from, to, held) == held
  {
  }

  lemma NoDeltaReadsBack(s: Fgk, fields: seq<int>, held: seq<int>, number: int, rest: seq<bool>)
    requires Complete(s) && Table(fields) && |fields| == |held| && 0 <= number < MAX_GENTITIES
    ensures s.tree.Shaped()
    ensures ReadEntity(s.tree, Stream(s, [Item(0, 1), Item(0, 1)]) + rest, fields, held, number)
      == Value(Entity(number, held), rest)
  {
    hide Complete, Field, ReadInt, Stream, ReadsAs, ReadWords;
    OneBit(0);
    ReadsTwo(s, 0, Item(0, 1), rest);
  }

  lemma DeltaReadsBack(s: Fgk, fields: seq<int>, from: seq<int>, to: Entity, held: seq<int>, rest: seq<bool>)
    requires Complete(s) && Table(fields) && |fields| == |from| == |to.words| == |held| && AreWords(to.words)
    requires 0 <= to.number < MAX_GENTITIES && LastChange(from, to.words) > 0
    ensures s.tree.Shaped()
    ensures
      var lc := LastChange(from, to.words);
      ReadEntity(s.tree, Stream(s, DeltaItems(fields[..lc], from[..lc], to.words[..lc])) + rest, fields, held,
        to.number)
        == Value(Entity(to.number, Updated(fields, from, to.words, held)), rest)
  {
    hide Complete, ReadInt, Stream, ReadWords, Received, DeltaItems, Updated, LastChange;
    var lc := LastChange(from, to.words);
    DeltaHeadReadsBack(s, fields[..lc], from[..lc], to.words[..lc], rest);
    WordsReadBack(s, fields[..lc], from[..lc], to.words[..lc], held[..lc], rest);
    TailIsHeld(fields, from, to.words, held, lc);
  }

  /** The three values before the fields. */
  lemma DeltaHeadReadsBack(s: Fgk, fields: seq<int>, from: seq<int>, to: seq<int>, rest: seq<bool>)
    requires Complete(s) && Table(fields) && |fields| == |from| == |to| && AreWords(to)
    ensures s.tree.Shaped()
    ensures
      var removed := ReadInt(s.tree, Stream(s, DeltaItems(fields, from, to)) + rest, 1);
      && removed.Value? && removed.v == 0
      && var delta := ReadInt(s.tree, removed.rest, 1);
      && delta.Value? && delta.v == 1
      && ReadInt(s.tree, delta.rest, 8) == Value(|fields|, Stream(s, FieldsItems(fields, from, to)) + rest)
  {
    hide Complete, Field, ReadInt, Stream, ReadsAs, FieldsItems, Pow2;
    var more := FieldsItems(fields, from, to);
    var last := [Item(|fields|, 8)] + more;
    var items := [Item(1, 1)] + last;
    assert DeltaItems(fields, from, to) == [Item(0, 1)] + items;
    OneBit(0);
    OneBit(1);
    ReadsFirst(s, Item(0, 1), items, rest);
    ReadsFirst(s, Item(1, 1), last, rest);
    ReadsFirst(s, Item(|fields|, 8), more, rest);
    CountFits(|fields|);
  }

  lemma CountFits(n: nat)
    requires n < 256
    ensures ReadsAs(n, 8) == n
  {
    PowersUsed();
    ReadsAsWritten(n, 8);
  }

  lemma TailIsHeld(fields: seq<int>, from: seq<int>, to: seq<int>, held: seq<int>, lc: nat)
    requires Table(fields) && |fields| == |from| == |to| == |held| && lc <= |fields| && from[lc..] == to[lc..]
    ensures Updated(fields[..lc], from[..lc], to[..lc], held[..lc]) + held[lc..] == Updated(fields, from, to, held)
  {
    forall i | lc <= i < |fields| ensures from[i] == to[i] {
      assert from[i] == from[lc..][i - lc] && to[i] == to[lc..][i - lc];
    }
  }

  /** The entity that stands for a removal: number 1023, all words zero */
  predicate IsRemoved(e: Entity, n: nat) {
    e.number == 1023 && |e.words| == n && forall i | 0 <= i < n :: e.words[i] == 0
  }

  /** A removal arrives as one, whatever the receiver holds and whatever follows; the number arrives exactly if it is
      one of 1024. */
  lemma RemovalReadsBack(s: Fgk, fields: seq<int>, number: int, held: seq<int>, rest: seq<bool>)
    requires Complete(s) && Table(fields) && |fields| == |held|
    ensures s.tree.Shaped()
    ensures
      var n := ReadInt(s.tree, Stream(s, RemoveItems(number)) + rest, 10);
      && n.Value? && 0 <= n.v < 1024 && (n.v == number <==> 0 <= number < 1024)
      && var e := ReadEntity(s.tree, n.rest, fields, held, n.v);
      e.Value? && e.rest == rest && IsRemoved(e.v, |fields|)
  {
    hide Complete, Field, ReadInt, ReadsAs, Stream, ReadWords;
    var first, last := Item(number, 10), Item(1, 1);
    assert RemoveItems(number) == [first] + [last];
    NumberIsRead(number);
    OneBit(1);
    ReadsFirst(s, first, [last], rest);
    ReadsLast(s, last, rest);
  }

  /** A number survives exactly if it is one of 1024. */
  lemma NumberIsRead(number: int)
    ensures 0 <= ReadsAs(number, 10) < 1024 && (ReadsAs(number, 10) == number <==> 0 <= number < 1024)
  {
    WidthsUsed();
    hide Low, Pow2;
    if Int32(number) { ReadsAsWritten(number, 10); }
  }

  /** An update is taken for a removal by its number exactly if its number is that of a removal. */
  lemma UpdateIsNoRemoval(s: Fgk, fields: seq<int>, from: seq<int>, to: Entity, held: seq<int>, rest: seq<bool>)
    requires Complete(s) && Table(fields) && |fields| == |from| == |to.words| == |held| && AreWords(to.words)
    requires 0 <= to.number < 1024
    ensures s.tree.Shaped()
    ensures
      var n := ReadInt(s.tree, Stream(s, EntityItems(fields, from, to, true)) + rest, 10);
      && n.Value?
      && var e := ReadEntity(s.tree, n.rest, fields, held, n.v);
      e.Value? && (e.v.number == 1023 <==> to.number == 1023)
  {
    hide Complete, Stream, ReadInt, ReadEntity, EntityItems, Updated;
    EntityReadsBack(s, fields, from, to, true, held, rest);
  }

  /** A word survives the trip exactly if it is no float -0 and, as an integer, fits its field. */
  lemma ReceivedIsSame(width: int, w: int)
    requires (width == 0 || Width(width)) && Int32(w)
    ensures Received(width, w) == w <==> Survives(width, w)
  {
    if width != 0 { ReadsAsWritten(w, width); }
  }

  /** A float other than -0, or an integer that fits its width */
  predicate Survives(width: int, w: int)
    requires width == 0 || Width(width)
  {
    if width == 0 then w != -0x8000_0000 else Fits(w, width)
  }

  /** Every word that has changed survives. */
  predicate Rebuilds(fields: seq<int>, from: seq<int>, to: seq<int>)
    requires Table(fields) && |fields| == |from| == |to|
  {
    forall i | 0 <= i < |fields| :: from[i] != to[i] ==> Survives(fields[i], to[i])
  }

  /** A receiver that holds what the sender had gets what the sender has exactly if the changed words survive. */
  lemma UpdatedIsSame(fields: seq<int>, from: seq<int>, to: seq<int>)
    requires Table(fields) && |fields| == |from| == |to| && AreWords(to)
    ensures Updated(fields, from, to, from) == to <==> Rebuilds(fields, from, to)
  {
    hide Received, Survives, Width;
    forall i | 0 <= i < |fields| ensures Updated(fields, from, to, from)[i] == to[i] <==>
      (from[i] != to[i] ==> Survives(fields[i], to[i]))
    {
      ReceivedIsSame(fields[i], to[i]);
    }
  }

  /** The words that a receiver holds for those of the sender. */
  function Mirror(fields: seq<int>, words: seq<int>): (r: seq<int>)
    requires Table(fields) && |fields| == |words|
    ensures |r| == |fields|
  {
    seq(|fields|, i requires 0 <= i < |fields| => Received(fields[i], words[i]))
  }

  /** The states from..., each sent as a delta from the one before. */
  ghost function ChainStream(s: Fgk, fields: seq<int>, from: seq<int>, states: seq<Entity>): seq<bool>
    requires Complete(s) && Table(fields) && |fields| == |from| && States(fields, states)
    decreases |states|
  {
    if states == [] then []
    else Stream(s, EntityItems(fields, from, states[0], true)) + ChainStream(s, fields, states[0].words, states[1..])
  }

  predicate States(fields: seq<int>, states: seq<Entity>) {
    forall i | 0 <= i < |states| ::
      |states[i].words| == |fields| && AreWords(states[i].words) && 0 <= states[i].number < MAX_GENTITIES
  }

  /** What a receiver that holds `held` reads. */
  function ReadChain(t: Tree, bits: seq<bool>, fields: seq<int>, held: seq<int>, n: nat): Read<seq<Entity>>
    requires t.Shaped() && Table(fields) && |fields| == |held|
    decreases n
  {
    if n == 0 then Value([], bits)
    else
      var (number, rest) :- ReadInt(t, bits, GENTITYNUM_BITS);
      var (first, rest) :- ReadEntity(t, rest, fields, held, number);
      if |first.words| != |fields| then Dropped
      else
        var (more, rest) :- ReadChain(t, rest, fields, first.words, n - 1);
        Value([first] + more, rest)
  }

  function Mirrored(fields: seq<int>, states: seq<Entity>): seq<Entity>
    requires Table(fields) && States(fields, states)
  {
    seq(|states|, i requires 0 <= i < |states| => Entity(states[i].number, Mirror(fields, states[i].words)))
  }

  predicate AllSurvive(fields: seq<int>, words: seq<int>)
    requires Table(fields) && |fields| == |words|
  {
    forall i | 0 <= i < |fields| :: Survives(fields[i], words[i])
  }

  lemma MirrorIsSame(fields: seq<int>, words: seq<int>)
    requires Table(fields) && |fields| == |words| && AreWords(words)
    ensures Mirror(fields, words) == words <==> AllSurvive(fields, words)
  {
    hide Received, Survives, Width;
    forall i | 0 <= i < |fields| ensures Mirror(fields, words)[i] == words[i] <==> Survives(fields[i], words[i]) {
      ReceivedIsSame(fields[i], words[i]);
    }
  }

  /** Over a chain the receiver's states are the sender's exactly if all of their words survive. */
  lemma MirroredIsSame(fields: seq<int>, states: seq<Entity>)
    requires Table(fields) && States(fields, states)
    ensures Mirrored(fields, states) == states <==>
      forall i | 0 <= i < |states| :: AllSurvive(fields, states[i].words)
  {
    hide Mirror, AllSurvive, Table;
    forall i | 0 <= i < |states|
      ensures Mirrored(fields, states)[i] == states[i] <==> AllSurvive(fields, states[i].words)
    {
      MirrorIsSame(fields, states[i].words);
    }
  }

  lemma MirrorIsUpdated(fields: seq<int>, from: seq<int>, to: seq<int>)
    requires Table(fields) && |fields| == |from| == |to|
    ensures Updated(fields, from, to, Mirror(fields, from)) == Mirror(fields, to)
  {
  }

  /** Over a whole chain of deltas the receiver keeps the mirror of the sender's state. */
  lemma {:induction false} ChainReadsBack(s: Fgk, fields: seq<int>, from: seq<int>, states: seq<Entity>,
          rest: seq<bool>)
    requires Complete(s) && Table(fields) && |fields| == |from| && States(fields, states)
    ensures s.tree.Shaped()
    ensures ReadChain(s.tree, ChainStream(s, fields, from, states) + rest, fields, Mirror(fields, from), |states|)
      == Value(Mirrored(fields, states), rest)
    decreases |states|
  {
    hide Complete, Field, ReadInt, Stream, ReadEntity, EntityItems, Mirror, Updated;
    if states == [] {
      EmptyStream(s, rest);
      assert ChainStream(s, fields, from, states) + rest == rest;
    } else {
      var to, more := states[0], ChainStream(s, fields, states[0].words, states[1..]);
      var first := Stream(s, EntityItems(fields, from, to, true));
      assert ChainStream(s, fields, from, states) + rest == first + (more + rest);
      EntityReadsBack(s, fields, from, to, true, Mirror(fields, from), more + rest);
      MirrorIsUpdated(fields, from, to.words);
      ChainReadsBack(s, fields, to.words, states[1..], rest);
      assert Mirrored(fields, states) == [Entity(to.number, Mirror(fields, to.words))] + Mirrored(fields, states[1..]);
    }
  }
}
