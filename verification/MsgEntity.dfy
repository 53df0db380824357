/**
  MSG_WriteDeltaEntity and MSG_ReadDeltaEntity of Shared/msg.c.
 */
module MsgEntity {
  import opened BitStream
  import opened Words
  import opened Options
  import opened HuffmanTree
  import opened HuffmanCoder
  import opened MsgCode
  import opened MsgDelta
  import opened MsgStream

  type FieldWidth = n: int | 0 <= n <= 32

  /** The widths in ENTITY_STATE_FIELDS, 0 for a float. */
  const ENTITY_STATE_FIELDS: seq<FieldWidth> := [
    32, 0, 0, 0, 0, 0, 0, 0, 0, 32, 32, 16, 32, 32, 16, 0, 0, 0, 10, 0,
    8, 8, 8, 8, 10, 8, 19, 10, 8, 4, 4, 16, 16, 8, 0, 32, 8, 0, 0, 0,
    24, 8, 32, 8, 10, 8, 8, 0, 0, 0, 8, 0, 32, 32, 32, 0, 0, 0, 0, 32,
    0, 0, 0, 32, 16
  ]

  /** The widths of the field table */
  ghost function Fields(): (r: seq<int>)
    ensures Table(r) && r == ENTITY_STATE_FIELDS
  {
    assert |ENTITY_STATE_FIELDS| == 65;
    ENTITY_STATE_FIELDS
  }

  class EntityState {
    var number: int
    var words: seq<int>

    constructor (number: int, words: seq<int>)
      ensures this.number == number && this.words == words
    {
      this.number, this.words := number, words;
    }
  }

  /** The part of MSG_WriteDeltaEntity that writes a field. */
  method WriteDeltaField(msg: Msg, huff: Huff, width: int, from: int, to: int, bloc: Cursor)
    requires msg.Writing() && Complete(huff.Abs()) && Int32(to) && (width == 0 || Width(width))
    requires |msg.written| + |Stream(huff.Abs(), FieldItems(width, from, to))| <= 8 * msg.data.Length
    modifies msg`bit, msg`written, msg`cursize, msg`overflowed, msg.data, bloc
    ensures msg.Writing() && (old(msg.overflowed) ==> msg.overflowed)
    ensures msg.written == old(msg.written) + Stream(huff.Abs(), FieldItems(width, from, to))
  {
    hide Complete, Stream, SmallInt, FloatIsZero;
    ghost var items := FieldItems(width, from, to);
    assert items[0..] == items;
    if from == to {
      WriteItem(msg, huff, Item(0, 1), items, 0, bloc);
    } else {
      WriteItem(msg, huff, Item(1, 1), items, 0, bloc);
      if width == 0 {
        if FloatIsZero(to) {
          WriteItem(msg, huff, Item(0, 1), items, 1, bloc);
        } else {
          WriteItem(msg, huff, Item(1, 1), items, 1, bloc);
          var trunc := SmallInt(to);
          if trunc.Some? {
            WriteItem(msg, huff, Item(0, 1), items, 2, bloc);
            WriteItem(msg, huff, Item(trunc.value + FLOAT_INT_BIAS, FLOAT_INT_BITS), items, 3, bloc);
          } else {
            WriteItem(msg, huff, Item(1, 1), items, 2, bloc);
            WriteItem(msg, huff, Item(to, 32), items, 3, bloc);
          }
        }
      } else if to == 0 {
        WriteItem(msg, huff, Item(0, 1), items, 1, bloc);
      } else {
        WriteItem(msg, huff, Item(1, 1), items, 1, bloc);
        WriteItem(msg, huff, Item(to, width), items, 2, bloc);
      }
    }
  }

  /** What MSG_WriteDeltaEntity writes, by its arguments. */
  function EntityDelta(fields: seq<int>, from: Option<Entity>, to: Option<Entity>, force: bool): seq<Item>
    requires from.Some? ==> |from.value.words| == |fields|
    requires to.Some? ==> |to.value.words| == |fields| && AreWords(to.value.words)
  {
    if to.None? then if from.None? then [] else RemoveItems(from.value.number)
    else if from.None? || !(0 <= to.value.number < MAX_GENTITIES) then []
    else EntityItems(fields, from.value.words, to.value, force)
  }

  ghost function StateOf(e: EntityState?): Option<Entity>
    reads e
  {
    if e == null then None else Some(Entity(e.number, e.words))
  }

  /** MSG_WriteDeltaEntity. It fails on a bad entity number. */
  method WriteDeltaEntity(msg: Msg, huff: Huff, from: EntityState?, to: EntityState?, force: bool, bloc: Cursor)
    returns (ok: bool)
    requires msg.Writing() && Complete(huff.Abs())
    requires from != null ==> |from.words| == |ENTITY_STATE_FIELDS|
    requires to != null ==> from != null && |to.words| == |ENTITY_STATE_FIELDS| && AreWords(to.words)
    requires
      var bits := Stream(huff.Abs(), EntityDelta(Fields(), StateOf(from), StateOf(to), force));
      |msg.written| + |bits| <= 8 * msg.data.Length
    modifies msg`bit, msg`written, msg`cursize, msg`overflowed, msg.data, bloc
    ensures ok <==> to == null || 0 <= to.number < MAX_GENTITIES
    ensures msg.Writing() && (old(msg.overflowed) ==> msg.overflowed)
    ensures msg.written == old(msg.written)
      + Stream(huff.Abs(), EntityDelta(Fields(), StateOf(from), StateOf(to), force))
  {
    hide Complete, Stream, EntityItems, FieldsItems, FieldItems;
    ghost var items := EntityDelta(Fields(), StateOf(from), StateOf(to), force);
    assert items[0..] == items;
    NothingWritten(huff.Abs());
    ok := true;
    if to == null {
      if from == null {
        return;
      }
      WriteRemoval(msg, huff, from, items, bloc);
      return;
    }
    if to.number < 0 || to.number >= MAX_GENTITIES {
      return false;
    }
    var lc := FindLastChange(from, to);
    EntityItemsAre(Fields(), from.words, Entity(to.number, to.words), force);
    if lc == 0 {
      if !force {
        return;
      }
      WriteItem(msg, huff, Item(to.number, GENTITYNUM_BITS), items, 0, bloc);
      WriteItem(msg, huff, Item(0, 1), items, 1, bloc);
      WriteItem(msg, huff, Item(0, 1), items, 2, bloc);
      return;
    }
    WriteChanges(msg, huff, from, to, lc, items, bloc);
  }

  /** The part of MSG_WriteDeltaEntity for an entity that is removed. */
  method WriteRemoval(msg: Msg, huff: Huff, from: EntityState, ghost items: seq<Item>, bloc: Cursor)
    requires msg.Writing() && Complete(huff.Abs()) && items == [Item(from.number, GENTITYNUM_BITS), Item(1, 1)]
    requires |msg.written| + |Stream(huff.Abs(), items)| <= 8 * msg.data.Length
    modifies msg`bit, msg`written, msg`cursize, msg`overflowed, msg.data, bloc
    ensures msg.Writing() && (old(msg.overflowed) ==> msg.overflowed)
    ensures msg.written == old(msg.written) + Stream(huff.Abs(), items)
  {
    hide Complete, Stream;
    NothingWritten(huff.Abs());
    WriteItem(msg, huff, Item(from.number, GENTITYNUM_BITS), items, 0, bloc);
    WriteItem(msg, huff, Item(1, 1), items, 1, bloc);
  }

  /** The part of MSG_WriteDeltaEntity for a state with changes. */
  method WriteChanges(msg: Msg, huff: Huff, from: EntityState, to: EntityState, lc: nat, ghost items: seq<Item>,
          bloc: Cursor)
    requires msg.Writing() && Complete(huff.Abs())
    requires lc <= |ENTITY_STATE_FIELDS| == |from.words| == |to.words| && AreWords(to.words)
    requires |items| >= 4 && items[0] == Item(to.number, GENTITYNUM_BITS) && items[1] == Item(0, 1)
    requires items[2] == Item(1, 1) && items[3] == Item(lc, 8)
    requires items[4..] == FieldsItems(Fields()[..lc], from.words[..lc], to.words[..lc])
    requires |msg.written| + |Stream(huff.Abs(), items)| <= 8 * msg.data.Length
    modifies msg`bit, msg`written, msg`cursize, msg`overflowed, msg.data, bloc
    ensures msg.Writing() && (old(msg.overflowed) ==> msg.overflowed)
    ensures msg.written == old(msg.written) + Stream(huff.Abs(), items)
  {
    hide Complete, Stream, FieldsItems;
    assert items[0..] == items;
    WriteItem(msg, huff, Item(to.number, GENTITYNUM_BITS), items, 0, bloc);
    WriteItem(msg, huff, Item(0, 1), items, 1, bloc);
    WriteItem(msg, huff, Item(1, 1), items, 2, bloc);
    WriteItem(msg, huff, Item(lc, 8), items, 3, bloc);
    WriteFields(msg, huff, from, to, lc, bloc);
  }

  /** The first loop of MSG_WriteDeltaEntity. */
  method FindLastChange(from: EntityState, to: EntityState) returns (lc: nat)
    requires |from.words| == |to.words| == |ENTITY_STATE_FIELDS|
    ensures lc == LastChange(from.words, to.words)
  {
    lc := 0;
    var i := 0;
    while i < |ENTITY_STATE_FIELDS|
      invariant 0 <= lc <= i <= |ENTITY_STATE_FIELDS|
      invariant lc > 0 ==> from.words[lc - 1] != to.words[lc - 1]
      invariant forall j | lc <= j < i :: from.words[j] == to.words[j]
    {
      if from.words[i] != to.words[i] {
        lc := i + 1;
      }
      i := i + 1;
    }
    LastChangeIs(from.words, to.words, lc);
  }

  lemma LastChangeIs(from: seq<int>, to: seq<int>, lc: nat)
    requires lc <= |from| == |to| && (lc > 0 ==> from[lc - 1] != to[lc - 1])
    requires forall j | lc <= j < |from| :: from[j] == to[j]
    ensures LastChange(from, to) == lc
  {
    var n := LastChange(from, to);
    TailsAgree(from, to, n);
  }

  lemma TailsAgree(a: seq<int>, b: seq<int>, n: nat)
    requires n <= |a| == |b| && a[n..] == b[n..]
    ensures forall j | n <= j < |a| :: a[j] == b[j]
  {
    forall j | n <= j < |a| ensures a[j] == b[j] {
      assert a[j] == a[n..][j - n] && b[j] == b[n..][j - n];
    }
  }

  lemma EntityItemsAre(fields: seq<int>, from: seq<int>, to: Entity, force: bool)
    requires |fields| == |from| == |to.words| && AreWords(to.words)
    ensures
      var lc, items := LastChange(from, to.words), EntityItems(fields, from, to, force);
      if lc == 0 then items == if force then [Item(to.number, GENTITYNUM_BITS), Item(0, 1), Item(0, 1)] else []
      else
        && |items| >= 4 && items[0] == Item(to.number, GENTITYNUM_BITS) && items[1] == Item(0, 1)
        && items[2] == Item(1, 1) && items[3] == Item(lc, 8)
        && items[4..] == FieldsItems(fields[..lc], from[..lc], to.words[..lc])
  {
  }

  /** The last loop of MSG_WriteDeltaEntity. */
  method WriteFields(msg: Msg, huff: Huff, from: EntityState, to: EntityState, lc: nat, bloc: Cursor)
    requires msg.Writing() && Complete(huff.Abs())
    requires lc <= |ENTITY_STATE_FIELDS| == |from.words| == |to.words| && AreWords(to.words)
    requires
      var bits := Stream(huff.Abs(), FieldsItems(Fields()[..lc], from.words[..lc], to.words[..lc]));
      |msg.written| + |bits| <= 8 * msg.data.Length
    modifies msg`bit, msg`written, msg`cursize, msg`overflowed, msg.data, bloc
    ensures msg.Writing() && (old(msg.overflowed) ==> msg.overflowed)
    ensures msg.written == old(msg.written)
      + Stream(huff.Abs(), FieldsItems(Fields()[..lc], from.words[..lc], to.words[..lc]))
  {
    hide Complete, Stream, FieldsItems, FieldItems;
    ghost var fields, f, t, s := Fields()[..lc], from.words[..lc], to.words[..lc], huff.Abs();
    assert fields[0..] == fields && f[0..] == f && t[0..] == t;
    ghost var all := msg.written + Stream(s, FieldsItems(fields, f, t));
    var i := 0;
    while i < lc
      invariant 0 <= i <= lc && msg.Writing() && (old(msg.overflowed) ==> msg.overflowed)
      invariant msg.written + Stream(s, FieldsItems(fields[i..], f[i..], t[i..])) == all
    {
      FieldsStep(s, fields, f, t, i);
      WriteDeltaField(msg, huff, ENTITY_STATE_FIELDS[i], from.words[i], to.words[i], bloc);
      i := i + 1;
    }
    NoFields(s, fields[lc..], f[lc..], t[lc..]);
  }

  lemma FieldsStep(s: Fgk, fields: seq<int>, from: seq<int>, to: seq<int>, i: nat)
    requires Complete(s) && i < |fields| == |from| == |to| && AreWords(to)
    ensures Stream(s, FieldsItems(fields[i..], from[i..], to[i..]))
      == Stream(s, FieldItems(fields[i], from[i], to[i]))
        + Stream(s, FieldsItems(fields[i + 1..], from[i + 1..], to[i + 1..]))
  {
    hide Complete, Stream, FieldItems;
    assert fields[i..][1..] == fields[i + 1..] && from[i..][1..] == from[i + 1..] && to[i..][1..] == to[i + 1..];
    StreamJoins(s, FieldItems(fields[i], from[i], to[i]), FieldsItems(fields[i + 1..], from[i + 1..], to[i + 1..]));
  }

  lemma NoFields(s: Fgk, fields: seq<int>, from: seq<int>, to: seq<int>)
    requires Complete(s) && fields == from == to == []
    ensures Stream(s, FieldsItems(fields, from, to)) == []
  {
  }

  /** The part of MSG_ReadDeltaEntity that reads a field. */
  method ReadDeltaField(msg: Msg, huff: Huff, width: int, from: int, bloc: Cursor) returns (to: int)
    requires huff.Abs().tree.Shaped() && msg.bit <= 8 * msg.data.Length && (width == 0 || Width(width))
    requires ReadWord(huff.Abs().tree, msg.Rest(), width, from).Value?
    modifies msg`bit, msg`readcount, bloc
    ensures msg.bit <= 8 * msg.data.Length
    ensures ReadWord(huff.Abs().tree, old(msg.Rest()), width, from) == Value(to, msg.Rest())
  {
    hide ReadInt, FloatWord, Bits;
    var changed := msg.ReadBits(huff, 1, bloc);
    if changed == 0 {
      return from;
    }
    var given := msg.ReadBits(huff, 1, bloc);
    if given == 0 {
      return 0;
    }
    if width == 0 {
      var full := msg.ReadBits(huff, 1, bloc);
      if full == 0 {
        var trunc := msg.ReadBits(huff, FLOAT_INT_BITS, bloc);
        trunc := trunc - FLOAT_INT_BIAS;
        to := FloatWord(trunc);
      } else {
        to := msg.ReadBits(huff, 32, bloc);
      }
    } else {
      to := msg.ReadBits(huff, width, bloc);
    }
  }

  /** MSG_ReadDeltaEntity, on a stream that is long enough. It fails on a bad number or a bad count. */
  method ReadDeltaEntity(msg: Msg, huff: Huff, from: EntityState, to: EntityState, number: int, bloc: Cursor)
    returns (ok: bool)
    requires from != to && |from.words| == |to.words| == |ENTITY_STATE_FIELDS|
    requires huff.Abs().tree.Shaped() && msg.bit <= 8 * msg.data.Length
    requires !ReadEntity(huff.Abs().tree, msg.Rest(), Fields(), from.words, number).Short?
    modifies msg`bit, msg`readcount, to, bloc
    ensures msg.bit <= 8 * msg.data.Length
    ensures
      var r := ReadEntity(huff.Abs().tree, old(msg.Rest()), Fields(), from.words, number);
      if ok then r == Value(Entity(to.number, to.words), msg.Rest()) else r.Dropped?
  {
    hide ReadInt, ReadWords, Bits;
    if number < 0 || number >= MAX_GENTITIES {
      return false;
    }
    ok := true;
    var removed := msg.ReadBits(huff, 1, bloc);
    if removed == 1 {
      to.words := seq(|ENTITY_STATE_FIELDS|, i => 0);
      to.number := MAX_GENTITIES - 1;
      return;
    }
    var delta := msg.ReadBits(huff, 1, bloc);
    if delta == 0 {
      to.words := from.words;
      to.number := number;
      return;
    }
    var lc := msg.ReadBits(huff, 8, bloc);
    if lc > |ENTITY_STATE_FIELDS| || lc < 0 {
      return false;
    }
    to.number := number;
    ReadFields(msg, huff, from, to, lc, bloc);
    CopyFields(from, to, lc);
  }

  /** The loop of MSG_ReadDeltaEntity over the other fields. */
  method CopyFields(from: EntityState, to: EntityState, lc: nat)
    requires from != to && lc <= |from.words| == |to.words| == |ENTITY_STATE_FIELDS|
    modifies to`words
    ensures to.words == old(to.words[..lc]) + from.words[lc..]
  {
    var i := lc;
    ghost var start := to.words[..lc];
    while i < |ENTITY_STATE_FIELDS|
      invariant lc <= i <= |ENTITY_STATE_FIELDS| == |to.words|
      invariant to.words[..i] == start + from.words[lc..i]
    {
      ghost var done := to.words[..i];
      to.words := to.words[i := from.words[i]];
      assert to.words[..i + 1] == done + [from.words[i]];
      assert from.words[lc..i + 1] == from.words[lc..i] + [from.words[i]];
      i := i + 1;
    }
    assert to.words[..i] == to.words && from.words[lc..i] == from.words[lc..];
  }

  /** The loop of MSG_ReadDeltaEntity over the fields that may have changed. */
  method ReadFields(msg: Msg, huff: Huff, from: EntityState, to: EntityState, lc: nat, bloc: Cursor)
    requires from != to && lc <= |from.words| == |to.words| == |ENTITY_STATE_FIELDS|
    requires huff.Abs().tree.Shaped() && msg.bit <= 8 * msg.data.Length
    requires ReadWords(huff.Abs().tree, msg.Rest(), Fields()[..lc], from.words[..lc]).Value?
    modifies msg`bit, msg`readcount, to`words, bloc
    ensures msg.bit <= 8 * msg.data.Length && |to.words| == |ENTITY_STATE_FIELDS|
    ensures ReadWords(huff.Abs().tree, old(msg.Rest()), Fields()[..lc], from.words[..lc])
      == Value(to.words[..lc], msg.Rest())
  {
    hide ReadInt, ReadWords, ReadWord, Bits, Partly;
    ghost var t, fields, f := huff.Abs().tree, Fields()[..lc], from.words[..lc];
    ghost var all := ReadWords(t, msg.Rest(), fields, f);
    NoneRead(t, msg.Rest(), fields, f);
    assert to.words[..0] == [];
    var i := 0;
    while i < lc
      invariant 0 <= i <= lc && |to.words| == |ENTITY_STATE_FIELDS| && msg.bit <= 8 * msg.data.Length
      invariant Partly(t, msg.Rest(), fields, f, to.words[..i], all)
    {
      ghost var done := to.words[..i];
      PartlyStep(t, msg.Rest(), fields, f, done, all);
      ReadFieldInto(msg, huff, from, to, i, bloc);
      assert to.words[..i + 1] == done + [to.words[i]];
      i := i + 1;
    }
    AllWordsRead(t, msg.Rest(), fields, f, to.words[..lc], all);
  }

  /** The first fields have been read as `got`; all together give r. */
  ghost predicate Partly(t: Tree, bits: seq<bool>, fields: seq<int>, from: seq<int>, got: seq<int>, r: Read<seq<int>>) {
    && t.Shaped() && Table(fields) && |fields| == |from| && |got| <= |fields| && r.Value?
    && var more := ReadWords(t, bits, fields[|got|..], from[|got|..]);
    more.Value? && more.rest == r.rest && got + more.v == r.v
  }

  lemma NoneRead(t: Tree, bits: seq<bool>, fields: seq<int>, from: seq<int>)
    requires t.Shaped() && Table(fields) && |fields| == |from| && ReadWords(t, bits, fields, from).Value?
    ensures Partly(t, bits, fields, from, [], ReadWords(t, bits, fields, from))
  {
    hide ReadWords;
    assert fields[0..] == fields && from[0..] == from;
  }

  lemma PartlyStep(t: Tree, bits: seq<bool>, fields: seq<int>, from: seq<int>, got: seq<int>, r: Read<seq<int>>)
    requires Partly(t, bits, fields, from, got, r) && |got| < |fields|
    ensures t.Shaped() && Table(fields) && |fields| == |from|
    ensures
      var w := ReadWord(t, bits, fields[|got|], from[|got|]);
      w.Value? && Partly(t, w.rest, fields, from, got + [w.v], r)
  {
    hide ReadWord;
    assert fields[|got|..][1..] == fields[|got| + 1..] && from[|got|..][1..] == from[|got| + 1..];
    var w := ReadWord(t, bits, fields[|got|], from[|got|]);
    var more := ReadWords(t, w.rest, fields[|got| + 1..], from[|got| + 1..]);
    assert got + ([w.v] + more.v) == got + [w.v] + more.v;
  }

  lemma AllWordsRead(t: Tree, bits: seq<bool>, fields: seq<int>, from: seq<int>, got: seq<int>, r: Read<seq<int>>)
    requires Partly(t, bits, fields, from, got, r) && |got| == |fields|
    ensures r == Value(got, bits)
  {
    assert got + [] == got;
  }

  method ReadFieldInto(msg: Msg, huff: Huff, from: EntityState, to: EntityState, i: nat, bloc: Cursor)
    requires from != to && i < |from.words| == |to.words| == |ENTITY_STATE_FIELDS|
    requires huff.Abs().tree.Shaped() && msg.bit <= 8 * msg.data.Length
    requires ReadWord(huff.Abs().tree, msg.Rest(), ENTITY_STATE_FIELDS[i], from.words[i]).Value?
    modifies msg`bit, msg`readcount, to`words, bloc
    ensures msg.bit <= 8 * msg.data.Length && |to.words| == |ENTITY_STATE_FIELDS| && to.words[..i] == old(to.words[..i])
    ensures ReadWord(huff.Abs().tree, old(msg.Rest()), ENTITY_STATE_FIELDS[i], from.words[i])
      == Value(to.words[i], msg.Rest())
  {
    hide ReadWord, Bits;
    var w := ReadDeltaField(msg, huff, ENTITY_STATE_FIELDS[i], from.words[i], bloc);
    to.words := to.words[i := w];
  }

  /** An entity that is written against `from` to a cleared message arrives at a receiver that holds
      `held`: what the sender has changed is changed there. */
  method SendEntity(msg: Msg, compressor: Huff, decompressor: Huff, from: EntityState, to: EntityState,
          held: EntityState, got: EntityState, bloc: Cursor) returns (ok: bool)
    requires msg.Writing() && !msg.overflowed && msg.written == []
    requires Complete(compressor.Abs()) && decompressor.Abs() == compressor.Abs()
    requires |from.words| == |to.words| == |held.words| == |got.words| == |ENTITY_STATE_FIELDS| && AreWords(to.words)
    requires got != held && got != to && got != from && 0 <= to.number < MAX_GENTITIES
    requires
      var bits := Stream(compressor.Abs(), EntityItems(Fields(), from.words, Entity(to.number, to.words), true));
      |bits| <= 8 * msg.data.Length
    modifies msg, msg.data, bloc, got
    ensures !msg.overflowed ==>
      ok && got.number == to.number && got.words == Updated(Fields(), from.words, to.words, old(held.words))
    ensures !msg.overflowed && old(held.words) == from.words ==>
      (got.words == to.words <==> Rebuilds(Fields(), from.words, to.words))
  {
    hide Complete, Stream, EntityItems, ReadEntity, ReadInt, Updated, Bits;
    ghost var s, e := compressor.Abs(), Entity(to.number, to.words);
    ok := WriteDeltaEntity(msg, compressor, from, to, true, bloc);
    if msg.overflowed {
      return;
    }
    assert msg.written == Stream(s, EntityItems(Fields(), from.words, e, true));
    msg.BeginReading();
    EntityReadsBack(s, Fields(), from.words, e, true, held.words,
      Bits(msg.data[..], |msg.written|, 8 * msg.data.Length));
    var number := msg.ReadBits(decompressor, GENTITYNUM_BITS, bloc);
    ok := ReadDeltaEntity(msg, decompressor, held, got, number, bloc);
    UpdatedIsSame(Fields(), from.words, to.words);
  }

  /** The removal of an entity arrives: its number, and a state that stands for none. */
  method SendRemoval(msg: Msg, compressor: Huff, decompressor: Huff, from: EntityState, held: EntityState,
          got: EntityState, bloc: Cursor) returns (ok: bool, number: int)
    requires msg.Writing() && !msg.overflowed && msg.written == []
    requires Complete(compressor.Abs()) && decompressor.Abs() == compressor.Abs()
    requires |from.words| == |held.words| == |got.words| == |ENTITY_STATE_FIELDS| && got != held
    requires |Stream(compressor.Abs(), RemoveItems(from.number))| <= 8 * msg.data.Length
    modifies msg, msg.data, bloc, got
    ensures !msg.overflowed ==>
      ok && (number == old(from.number) <==> 0 <= old(from.number) < 1024)
      && IsRemoved(Entity(got.number, got.words), |ENTITY_STATE_FIELDS|)
  {
    hide Complete, Stream, RemoveItems, ReadEntity, ReadInt, Bits;
    ghost var s := compressor.Abs();
    ok := WriteDeltaEntity(msg, compressor, from, null, false, bloc);
    number := 0;
    if msg.overflowed {
      return;
    }
    assert msg.written == Stream(s, RemoveItems(from.number));
    msg.BeginReading();
    RemovalReadsBack(s, Fields(), from.number, held.words, Bits(msg.data[..], |msg.written|, 8 * msg.data.Length));
    number := msg.ReadBits(decompressor, GENTITYNUM_BITS, bloc);
    ok := ReadDeltaEntity(msg, decompressor, held, got, number, bloc);
  }
}
