/**
  User commands as Shared/msg.c sends them: each as a delta from the one before, its fields masked
  with a key that both sides know.
 */
module MsgUsercmd {
  import opened BitStream
  import opened Words
  import opened HuffmanTree
  import opened MsgCode
  import opened MsgDelta
  import opened MsgStream
  import opened HuffmanCoder

  datatype Cmd = Cmd(serverTime: int, angles: seq<int>, forwardmove: int, rightmove: int, upmove: int,
                     buttons: int, weapon: int)

  predicate Char(v: int) {
    -128 <= v < 128
  }

  /** The values that the fields of a usercmd_t can hold. */
  predicate ValidCmd(c: Cmd) {
    && |c.angles| == 3 && AreWords(c.angles + [c.serverTime, c.buttons])
    && Char(c.forwardmove) && Char(c.rightmove) && Char(c.upmove) && 0 <= c.weapon < 256
  }

  /** The fields other than the time, in the order in which they are sent. */
  function Fields(c: Cmd): (r: seq<int>)
    ensures |r| == |c.angles| + 5
  {
    c.angles + [c.forwardmove, c.rightmove, c.upmove, c.buttons, c.weapon]
  }

  const WIDTHS := [16, 16, 16, 8, 8, 8, 16, 8]

  function Bool(b: bool): int {
    if b then 1 else 0
  }

  /** a ^ b on ints in two's complement */
  function Xor(a: int, b: int): int
    decreases Abs(a) + Abs(b)
  {
    if -1 <= a <= 0 && -1 <= b <= 0 then -Bool(a != b) else Bool(a % 2 != b % 2) + 2 * Xor(a / 2, b / 2)
  }

  lemma XorHalves(a: int, b: int)
    ensures Xor(a, b) % 2 == Bool(a % 2 != b % 2) && Xor(a, b) / 2 == Xor(a / 2, b / 2)
  {
  }

  /** Bit n of an int */
  predicate IntBit(v: int, n: nat)
    decreases n
  {
    if n == 0 then v % 2 == 1 else IntBit(v / 2, n - 1)
  }

  lemma XorBit(a: int, b: int, x: int, y: int)
    requires Xor(a / 2, b / 2) == x && y == Bool(a % 2 != b % 2)
    ensures Xor(a, b) == 2 * x + y
  {
    XorHalves(a, b);
  }

  /** Unmasking what was masked gives the value's low bits, with bit n of the key above them:
      kbitmask[n] keeps n + 1 bits of the key. */
  lemma {:induction false} UnmasksAbove(a: int, key: int, n: nat)
    ensures Xor(Low(Xor(a, key), n), Low(key, n + 1)) == Low(a, n) + if IntBit(key, n) then Pow2(n) else 0
    decreases n
  {
    hide Xor;
    var u, k := Low(Xor(a, key), n), Low(key, n + 1);
    XorHalves(a, key);
    assert k == key % 2 + 2 * Low(key / 2, n);
    if n > 0 {
      assert u == Xor(a, key) % 2 + 2 * Low(Xor(a / 2, key / 2), n - 1);
      UnmasksAbove(a / 2, key / 2, n - 1);
      XorBit(u, k, Low(a / 2, n - 1) + if IntBit(key / 2, n - 1) then Pow2(n - 1) else 0, a % 2);
    } else {
      XorOfZero(k);
    }
  }

  lemma XorOfZero(k: int)
    requires 0 <= k < 2
    ensures Xor(0, k) == k
  {
    assert Xor(0, 0) == 0;
  }

  /** MSG_WriteDeltaKey */
  function KeyItems(key: int, old0: int, new0: int, bits: int): seq<Item> {
    if old0 == new0 then [Item(0, 1)] else [Item(1, 1), Item(Xor(new0, key), bits)]
  }

  function KeysItems(key: int, bits: seq<int>, from: seq<int>, to: seq<int>): seq<Item>
    requires |bits| == |from| == |to|
  {
    if bits == [] then []
    else KeyItems(key, from[0], to[0], bits[0]) + KeysItems(key, bits[1..], from[1..], to[1..])
  }

  function TimeItems(from: int, to: int): seq<Item> {
    if Wrap(to - from) < 256 then [Item(1, 1), Item(Wrap(to - from), 8)] else [Item(0, 1), Item(to, 32)]
  }

  /** MSG_WriteDeltaUsercmdKey */
  function CmdItems(key: int, from: Cmd, to: Cmd): seq<Item>
    requires ValidCmd(from) && ValidCmd(to)
  {
    TimeItems(from.serverTime, to.serverTime) +
    if Fields(from) == Fields(to) then [Item(0, 1)]
    else [Item(1, 1)] + KeysItems(Xor(key, to.serverTime), WIDTHS, Fields(from), Fields(to))
  }

  /** MSG_ReadDeltaKey */
  function ReadKeyed(t: Tree, stream: seq<bool>, key: int, old0: int, bits: int): Read<int>
    requires t.Shaped() && Width(bits)
  {
    var (changed, rest) :- ReadInt(t, stream, 1);
    if changed == 0 then Value(old0, rest)
    else
      var (v, rest) :- ReadInt(t, rest, bits);
      Value(Xor(v, Low(key, Abs(bits) + 1)), rest)
  }

  function ReadKeys(t: Tree, stream: seq<bool>, key: int, bits: seq<int>, old0: seq<int>): Read<seq<int>>
    requires t.Shaped() && |bits| == |old0| && forall i | 0 <= i < |bits| :: Width(bits[i])
    decreases |bits|
  {
    if bits == [] then Value([], stream)
    else
      var (v, rest) :- ReadKeyed(t, stream, key, old0[0], bits[0]);
      var (vs, rest) :- ReadKeys(t, rest, key, bits[1..], old0[1..]);
      Value([v] + vs, rest)
  }

  function SignedChar(v: int): int {
    (v + 128) % 256 - 128
  }

  /** The command with these fields, each cut to its type. */
  function WithFields(time: int, v: seq<int>): Cmd
    requires |v| == 8
  {
    Cmd(time, v[..3], SignedChar(v[3]), SignedChar(v[4]), SignedChar(v[5]), v[6], v[7] % 256)
  }

  function ReadTime(t: Tree, stream: seq<bool>, from: int): Read<int>
    requires t.Shaped()
  {
    var (near, rest) :- ReadInt(t, stream, 1);
    if near != 0 then
      var (d, rest) :- ReadInt(t, rest, 8);
      Value(Wrap(from + d), rest)
    else ReadInt(t, rest, 32)
  }

  lemma ReadKeysLength(t: Tree, stream: seq<bool>, key: int, bits: seq<int>, old0: seq<int>)
    requires t.Shaped() && |bits| == |old0| && forall i | 0 <= i < |bits| :: Width(bits[i])
    ensures ReadKeys(t, stream, key, bits, old0).Value? ==> |ReadKeys(t, stream, key, bits, old0).v| == |bits|
    decreases |bits|
  {
    hide ReadKeyed;
    if bits != [] && ReadKeyed(t, stream, key, old0[0], bits[0]).Value? {
      ReadKeysLength(t, ReadKeyed(t, stream, key, old0[0], bits[0]).rest, key, bits[1..], old0[1..]);
    }
  }

  /** MSG_ReadDeltaUsercmdKey */
  function ReadCmd(t: Tree, stream: seq<bool>, key: int, from: Cmd): Read<Cmd>
    requires t.Shaped() && |from.angles| == 3
  {
    var (time, rest) :- ReadTime(t, stream, from.serverTime);
    var (changed, rest) :- ReadInt(t, rest, 1);
    if changed == 0 then Value(from.(serverTime := time), rest)
    else
      ReadKeysLength(t, rest, Xor(key, time), WIDTHS, Fields(from));
      var (v, rest) :- ReadKeys(t, rest, Xor(key, time), WIDTHS, Fields(from));
      Value(WithFields(time, v), rest)
  }

  /** Fields that agree in the bits that are sent. */
  predicate AgreeOn(bits: seq<int>, v: seq<int>, w: seq<int>) {
    |v| == |w| == |bits| && forall i | 0 <= i < |bits| :: Low(v[i], Abs(bits[i])) == Low(w[i], Abs(bits[i]))
  }

  /** The receiver's command has the sender's time, moves and weapon; its angles and buttons are
      the sender's modulo 2^16. */
  predicate Agree(c: Cmd, d: Cmd) {
    && c.serverTime == d.serverTime && c.forwardmove == d.forwardmove && c.rightmove == d.rightmove
    && c.upmove == d.upmove && c.weapon == d.weapon
    && AgreeOn([16, 16, 16, 16], c.angles + [c.buttons], d.angles + [d.buttons])
  }

  /** The time arrives exactly if it has not gone backwards. */
  lemma TimeReadsBack(s: Fgk, from: int, to: int, rest: seq<bool>)
    requires Complete(s) && Int32(from) && Int32(to)
    ensures s.tree.Shaped()
    ensures var r := ReadTime(s.tree, Stream(s, TimeItems(from, to)) + rest, from);
      r.Value? && r.rest == rest && (r.v == to <==> Wrap(to - from) >= 0)
  {
    hide Complete, Field, ReadInt, Stream, ReadsAs, Pow2;
    PowersUsed();
    var d := Wrap(to - from);
    if d < 256 {
      ReadsTwo(s, 1, Item(d, 8), rest);
      ReadsAsWritten(d, 8);
      ByteRead(d);
    } else {
      ReadsTwo(s, 0, Item(to, 32), rest);
      ReadsAsWritten(to, 32);
    }
  }

  lemma ByteRead(d: int)
    ensures 0 <= ReadsAs(d, 8) < 256
  {
    PowersUsed();
  }

  lemma KeyReadsBack(s: Fgk, key: int, old0: int, new0: int, held: int, bits: int, rest: seq<bool>)
    requires Complete(s) && 0 < bits < 32 && Low(old0, bits) == Low(held, bits)
    ensures s.tree.Shaped()
    ensures var r := ReadKeyed(s.tree, Stream(s, KeyItems(key, old0, new0, bits)) + rest, key, held, bits);
      && r.Value? && r.rest == rest && Low(r.v, bits) == Low(new0, bits)
      && (old0 != new0 ==> r.v == Low(new0, bits) + if IntBit(key, bits) then Pow2(bits) else 0)
  {
    hide Complete, Field, ReadInt, Stream, Pow2, Xor, Low, ReadsAs;
    if old0 == new0 {
      assert [Item(0, 1)][1..] == [];
      ReadsBit(s, 0, [Item(0, 1)], rest);
      EmptyStream(s, rest);
    } else {
      ReadsTwo(s, 1, Item(Xor(new0, key), bits), rest);
      Unmasked(new0, key, bits);
    }
  }

  /** Unmasking with another key gives the value's bits exactly where the keys agree. */
  lemma {:induction false} KeysMustAgree(a: int, key: int, other: int, n: nat)
    ensures Low(Xor(Low(Xor(a, key), n), Low(other, n + 1)), n) == Low(a, n) <==> Low(key, n) == Low(other, n)
    decreases n
  {
    hide Xor;
    if n > 0 {
      var u, k := Low(Xor(a, key), n), Low(other, n + 1);
      XorHalves(a, key);
      XorHalves(u, k);
      assert u / 2 == Low(Xor(a / 2, key / 2), n - 1) && k / 2 == Low(other / 2, n);
      KeysMustAgree(a / 2, key / 2, other / 2, n - 1);
    }
  }

  /** A field that has changed arrives under another key exactly if the keys agree in its bits. */
  lemma OtherKeyReads(s: Fgk, key: int, other: int, old0: int, new0: int, held: int, bits: int, rest: seq<bool>)
    requires Complete(s) && 0 < bits < 32 && old0 != new0
    ensures s.tree.Shaped()
    ensures var r := ReadKeyed(s.tree, Stream(s, KeyItems(key, old0, new0, bits)) + rest, other, held, bits);
      r.Value? && r.rest == rest && (Low(r.v, bits) == Low(new0, bits) <==> Low(key, bits) == Low(other, bits))
  {
    hide Complete, Field, ReadInt, Stream, Pow2, Xor, Low, ReadsAs;
    ReadsTwo(s, 1, Item(Xor(new0, key), bits), rest);
    ReadsLow(Xor(new0, key), bits);
    KeysMustAgree(new0, key, other, bits);
  }

  lemma ReadsLow(value: int, bits: int)
    requires 0 < bits < 32
    ensures ReadsAs(value, bits) == Low(value, bits)
  {
    hide Low, Pow2;
    LowTwice(value, bits, bits);
  }

  lemma Unmasked(value: int, key: int, bits: int)
    requires 0 < bits < 32
    ensures
      var v := Xor(ReadsAs(Xor(value, key), bits), Low(key, bits + 1));
      v == Low(value, bits) + (if IntBit(key, bits) then Pow2(bits) else 0) && Low(v, bits) == Low(value, bits)
  {
    hide Xor, Low, Pow2;
    UnmasksAbove(value, key, bits);
    LowTwice(value, bits, bits);
    LowOfSum(Low(value, bits), bits);
  }

  lemma {:induction false} LowOfSum(v: nat, n: nat)
    ensures Low(v + Pow2(n), n) == Low(v, n)
  {
    if n > 0 {
      LowOfSum(v / 2, n - 1);
      assert (v + Pow2(n)) / 2 == v / 2 + Pow2(n - 1) && (v + Pow2(n)) % 2 == v % 2;
    }
  }

  lemma {:induction false} KeysReadBack(s: Fgk, key: int, bits: seq<int>, from: seq<int>, to: seq<int>,
          held: seq<int>, rest: seq<bool>)
    requires Complete(s) && |bits| == |to| && AgreeOn(bits, from, held)
    requires forall i | 0 <= i < |bits| :: 0 < bits[i] < 32
    ensures s.tree.Shaped() && forall i | 0 <= i < |bits| :: Width(bits[i])
    ensures var r := ReadKeys(s.tree, Stream(s, KeysItems(key, bits, from, to)) + rest, key, bits, held);
      r.Value? && r.rest == rest && AgreeOn(bits, to, r.v)
    decreases |bits|
  {
    hide Complete, Field, Stream, KeyItems, Low, ReadKeyed;
    EmptyStream(s, rest);
    if bits != [] {
      var first, more := KeyItems(key, from[0], to[0], bits[0]), KeysItems(key, bits[1..], from[1..], to[1..]);
      StreamJoins(s, first, more);
      assert Stream(s, first + more) + rest == Stream(s, first) + (Stream(s, more) + rest);
      KeyReadsBack(s, key, from[0], to[0], held[0], bits[0], Stream(s, more) + rest);
      KeysReadBack(s, key, bits[1..], from[1..], to[1..], held[1..], rest);
    }
  }

  /** The stored fields agree with those that were sent. */
  lemma StoredFieldsAgree(c: Cmd, v: seq<int>)
    requires ValidCmd(c) && AgreeOn(WIDTHS, Fields(c), v)
    ensures Agree(c, WithFields(c.serverTime, v)) && ValidTypes(WithFields(c.serverTime, v))
  {
    hide Low, Fields, ValidCmd;
    MovesAgree(c, v);
    AnglesAgree(c, v);
  }

  lemma MovesAgree(c: Cmd, v: seq<int>)
    requires ValidCmd(c) && AgreeOn(WIDTHS, Fields(c), v)
    ensures c.forwardmove == SignedChar(v[3]) && c.rightmove == SignedChar(v[4]) && c.upmove == SignedChar(v[5])
    ensures c.weapon == v[7] % 256 && |c.angles| == 3
  {
    hide Low, AgreeOn;
    FieldAgrees(c, v, 3);
    FieldAgrees(c, v, 4);
    FieldAgrees(c, v, 5);
    FieldAgrees(c, v, 7);
    SameLowByte(c.forwardmove, v[3]);
    SameLowByte(c.rightmove, v[4]);
    SameLowByte(c.upmove, v[5]);
    SameLowByte(c.weapon, v[7]);
  }

  lemma AnglesAgree(c: Cmd, v: seq<int>)
    requires ValidCmd(c) && AgreeOn(WIDTHS, Fields(c), v)
    ensures AgreeOn([16, 16, 16, 16], c.angles + [c.buttons], v[..3] + [v[6]])
  {
    hide Low;
    forall i | 0 <= i < 4 ensures Low((c.angles + [c.buttons])[i], 16) == Low((v[..3] + [v[6]])[i], 16) {
      FieldAgrees(c, v, if i < 3 then i else 6);
    }
  }

  lemma FieldAgrees(c: Cmd, v: seq<int>, i: nat)
    requires ValidCmd(c) && AgreeOn(WIDTHS, Fields(c), v) && i < 8
    ensures |v| == 8 && Low(Fields(c)[i], WIDTHS[i]) == Low(v[i], WIDTHS[i])
  {
    hide Low;
  }

  lemma SameLowByte(a: int, b: int)
    requires Low(a, 8) == Low(b, 8)
    ensures a % 256 == b % 256
  {
    ByteOfLow(a, 0);
    ByteOfLow(b, 0);
  }

  predicate ValidTypes(c: Cmd) {
    |c.angles| == 3 && Char(c.forwardmove) && Char(c.rightmove) && Char(c.upmove) && 0 <= c.weapon < 256
  }

  lemma AgreeingFields(c: Cmd, d: Cmd)
    requires ValidCmd(c) && Agree(c, d) && |d.angles| == 3
    ensures AgreeOn(WIDTHS, Fields(c), Fields(d))
  {
    hide Low;
    var a, b := c.angles + [c.buttons], d.angles + [d.buttons];
    forall i | 0 <= i < 8 ensures Low(Fields(c)[i], Abs(WIDTHS[i])) == Low(Fields(d)[i], Abs(WIDTHS[i])) {
      if i < 3 || i == 6 {
        var j := if i == 6 then 3 else i;
        assert Low(a[j], 16) == Low(b[j], 16);
        assert Fields(c)[i] == a[j] && Fields(d)[i] == b[j];
      }
    }
  }

  /** A receiver whose last command agrees with the sender's reads one that agrees with the next,
      exactly if time has not gone backwards. */
  lemma CmdReadsBack(s: Fgk, key: int, from: Cmd, to: Cmd, held: Cmd, rest: seq<bool>)
    requires Complete(s) && ValidCmd(from) && ValidCmd(to) && |held.angles| == 3 && Agree(from, held)
    ensures s.tree.Shaped()
    ensures var r := ReadCmd(s.tree, Stream(s, CmdItems(key, from, to)) + rest, key, held);
      if Wrap(to.serverTime - from.serverTime) >= 0
      then r.Value? && r.rest == rest && Agree(to, r.v) && |r.v.angles| == 3
      else !(r.Value? && Agree(to, r.v))
  {
    hide Complete, Field, ReadInt, Stream, ReadTime, TimeItems, AgreeOn, KeysItems, ReadKeys, Low, Wrap;
    assert Int32(from.serverTime) && Int32(to.serverTime) by {
      assert (from.angles + [from.serverTime, from.buttons])[3] == from.serverTime;
      assert (to.angles + [to.serverTime, to.buttons])[3] == to.serverTime;
    }
    var times := TimeItems(from.serverTime, to.serverTime);
    var more := CmdItems(key, from, to)[|times|..];
    assert CmdItems(key, from, to) == times + more;
    StreamJoins(s, times, more);
    assert Stream(s, times + more) + rest == Stream(s, times) + (Stream(s, more) + rest);
    TimeReadsBack(s, from.serverTime, to.serverTime, Stream(s, more) + rest);
    if Fields(from) == Fields(to) {
      assert more == [Item(0, 1)] && more[1..] == [];
      ReadsBit(s, 0, more, rest);
      EmptyStream(s, rest);
      SameFields(from, to);
    } else if Wrap(to.serverTime - from.serverTime) >= 0 {
      var k := Xor(key, to.serverTime);
      assert more == [Item(1, 1)] + KeysItems(k, WIDTHS, Fields(from), Fields(to));
      ReadsBit(s, 1, more, rest);
      AgreeingFields(from, held);
      KeysReadBack(s, k, WIDTHS, Fields(from), Fields(to), Fields(held), rest);
      StoredFieldsAgree(to, ReadKeys(s.tree, Stream(s, more[1..]) + rest, k, WIDTHS, Fields(held)).v);
    }
  }

  lemma SameFields(c: Cmd, d: Cmd)
    requires |c.angles| == |d.angles| == 3 && Fields(c) == Fields(d)
    ensures c.(serverTime := d.serverTime) == d
  {
    assert c.angles == Fields(c)[..3] && d.angles == Fields(d)[..3];
    assert Fields(c)[3] == Fields(d)[3] && Fields(c)[4] == Fields(d)[4] && Fields(c)[5] == Fields(d)[5]
      && Fields(c)[6] == Fields(d)[6] && Fields(c)[7] == Fields(d)[7];
  }

  /** Commands, each sent against the one before. */
  ghost function CmdsStream(s: Fgk, key: int, from: Cmd, cmds: seq<Cmd>): seq<bool>
    requires Complete(s) && ValidCmd(from) && forall i | 0 <= i < |cmds| :: ValidCmd(cmds[i])
    decreases |cmds|
  {
    if cmds == [] then [] else Stream(s, CmdItems(key, from, cmds[0])) + CmdsStream(s, key, cmds[0], cmds[1..])
  }

  function ReadCmds(t: Tree, stream: seq<bool>, key: int, held: Cmd, n: nat): Read<seq<Cmd>>
    requires t.Shaped()
    decreases n
  {
    if n == 0 then Value([], stream)
    else if |held.angles| != 3 then Dropped
    else
      var (c, rest) :- ReadCmd(t, stream, key, held);
      var (more, rest) :- ReadCmds(t, rest, key, c, n - 1);
      Value([c] + more, rest)
  }

  /** The times never go backwards. */
  predicate Forward(from: Cmd, cmds: seq<Cmd>)
    decreases |cmds|
  {
    cmds != [] ==> Wrap(cmds[0].serverTime - from.serverTime) >= 0 && Forward(cmds[0], cmds[1..])
  }

  /** Over a whole chain of commands the receiver agrees with the sender at every step. */
  lemma {:induction false} CmdsReadBack(s: Fgk, key: int, from: Cmd, cmds: seq<Cmd>, held: Cmd, rest: seq<bool>)
    requires Complete(s) && ValidCmd(from) && forall i | 0 <= i < |cmds| :: ValidCmd(cmds[i])
    requires |held.angles| == 3 && Agree(from, held) && Forward(from, cmds)
    ensures s.tree.Shaped()
    ensures var r := ReadCmds(s.tree, CmdsStream(s, key, from, cmds) + rest, key, held, |cmds|);
      && r.Value? && r.rest == rest && |r.v| == |cmds|
      && forall i | 0 <= i < |cmds| :: Agree(cmds[i], r.v[i])
    decreases |cmds|
  {
    hide Complete, Field, Stream, ReadCmd, CmdItems, Agree, ValidCmd;
    EmptyStream(s, rest);
    if cmds == [] {
      assert CmdsStream(s, key, from, cmds) + rest == rest;
    } else {
      var first, more := Stream(s, CmdItems(key, from, cmds[0])), CmdsStream(s, key, cmds[0], cmds[1..]);
      assert CmdsStream(s, key, from, cmds) + rest == first + (more + rest);
      CmdReadsBack(s, key, from, cmds[0], held, more + rest);
      var c := ReadCmd(s.tree, first + (more + rest), key, held).v;
      CmdsReadBack(s, key, cmds[0], cmds[1..], c, rest);
    }
  }

  class UserCmd {
    var serverTime: int
    var angles: seq<int>
    var buttons: int
    var weapon: int
    var forwardmove: int
    var rightmove: int
    var upmove: int

    constructor (c: Cmd)
      ensures Value() == c
    {
      serverTime, angles, buttons, weapon := c.serverTime, c.angles, c.buttons, c.weapon;
      forwardmove, rightmove, upmove := c.forwardmove, c.rightmove, c.upmove;
    }

    ghost function Value(): Cmd
      reads this
    {
      Cmd(serverTime, angles, forwardmove, rightmove, upmove, buttons, weapon)
    }
  }

  lemma KeysStep(s: Fgk, key: int, bits: seq<int>, from: seq<int>, to: seq<int>, k: nat)
    requires Complete(s) && k < |bits| == |from| == |to|
    ensures Stream(s, KeysItems(key, bits[k..], from[k..], to[k..]))
      == Stream(s, KeyItems(key, from[k], to[k], bits[k]))
        + Stream(s, KeysItems(key, bits[k + 1..], from[k + 1..], to[k + 1..]))
    ensures k + 1 == |bits| ==> Stream(s, KeysItems(key, bits[k + 1..], from[k + 1..], to[k + 1..])) == []
  {
    hide Complete, Field, KeyItems;
    assert bits[k..][1..] == bits[k + 1..] && from[k..][1..] == from[k + 1..] && to[k..][1..] == to[k + 1..];
    StreamJoins(s, KeyItems(key, from[k], to[k], bits[k]), KeysItems(key, bits[k + 1..], from[k + 1..], to[k + 1..]));
  }

  /** MSG_WriteDeltaKey */
  method WriteDeltaKey(msg: Msg, huff: Huff, key: int, oldV: int, newV: int, bits: int, bloc: Cursor)
    requires msg.Writing() && Complete(huff.Abs()) && Width(bits)
    requires |msg.written| + |Stream(huff.Abs(), KeyItems(key, oldV, newV, bits))| <= 8 * msg.data.Length
    modifies msg`bit, msg`written, msg`cursize, msg`overflowed, msg.data, bloc
    ensures msg.Writing() && (old(msg.overflowed) ==> msg.overflowed)
    ensures msg.written == old(msg.written) + Stream(huff.Abs(), KeyItems(key, oldV, newV, bits))
  {
    hide Complete, Stream;
    ghost var items := KeyItems(key, oldV, newV, bits);
    assert items[0..] == items;
    if oldV == newV {
      WriteItem(msg, huff, Item(0, 1), items, 0, bloc);
      return;
    }
    WriteItem(msg, huff, Item(1, 1), items, 0, bloc);
    WriteItem(msg, huff, Item(Xor(newV, key), bits), items, 1, bloc);
  }

  /** Writes field k of those that are to be written. */
  method WriteKey(msg: Msg, huff: Huff, key: int, oldV: int, newV: int, width: int,
                  ghost from: seq<int>, ghost to: seq<int>, ghost k: nat, bloc: Cursor)
    requires msg.Writing() && Complete(huff.Abs()) && |from| == |to| == 8 && k < 8
    requires oldV == from[k] && newV == to[k] && width == WIDTHS[k] && Width(width)
    requires
      var bits := Stream(huff.Abs(), KeysItems(key, WIDTHS[k..], from[k..], to[k..]));
      |msg.written| + |bits| <= 8 * msg.data.Length
    modifies msg`bit, msg`written, msg`cursize, msg`overflowed, msg.data, bloc
    ensures msg.Writing() && (old(msg.overflowed) ==> msg.overflowed)
    ensures msg.written + Stream(huff.Abs(), KeysItems(key, WIDTHS[k + 1..], from[k + 1..], to[k + 1..]))
      == old(msg.written) + Stream(huff.Abs(), KeysItems(key, WIDTHS[k..], from[k..], to[k..]))
    ensures
      var bits := Stream(huff.Abs(), KeysItems(key, WIDTHS[k..], from[k..], to[k..]));
      k == 7 ==> msg.written == old(msg.written) + bits
  {
    hide Complete, Stream, KeyItems, KeysItems;
    KeysStep(huff.Abs(), key, WIDTHS, from, to, k);
    WriteDeltaKey(msg, huff, key, oldV, newV, width, bloc);
  }

  /** The last part of MSG_WriteDeltaUsercmdKey. */
  method WriteKeys(msg: Msg, huff: Huff, key: int, from: UserCmd, to: UserCmd, bloc: Cursor)
    requires msg.Writing() && Complete(huff.Abs()) && |from.angles| == |to.angles| == 3
    requires
      var bits := Stream(huff.Abs(), KeysItems(key, WIDTHS, Fields(from.Value()), Fields(to.Value())));
      |msg.written| + |bits| <= 8 * msg.data.Length
    modifies msg`bit, msg`written, msg`cursize, msg`overflowed, msg.data, bloc
    ensures msg.Writing() && (old(msg.overflowed) ==> msg.overflowed)
    ensures msg.written == old(msg.written)
      + Stream(huff.Abs(), KeysItems(key, WIDTHS, Fields(from.Value()), Fields(to.Value())))
  {
    hide Complete, Stream, KeysItems;
    ghost var f, t := Fields(from.Value()), Fields(to.Value());
    assert WIDTHS[0..] == WIDTHS && f[0..] == f && t[0..] == t;
    WriteKey(msg, huff, key, from.angles[0], to.angles[0], 16, f, t, 0, bloc);
    WriteKey(msg, huff, key, from.angles[1], to.angles[1], 16, f, t, 1, bloc);
    WriteKey(msg, huff, key, from.angles[2], to.angles[2], 16, f, t, 2, bloc);
    WriteKey(msg, huff, key, from.forwardmove, to.forwardmove, 8, f, t, 3, bloc);
    WriteLastKeys(msg, huff, key, from, to, f, t, bloc);
  }

  method WriteLastKeys(msg: Msg, huff: Huff, key: int, from: UserCmd, to: UserCmd, ghost f: seq<int>,
          ghost t: seq<int>, bloc: Cursor)
    requires msg.Writing() && Complete(huff.Abs()) && |from.angles| == |to.angles| == 3
    requires f == Fields(from.Value()) && t == Fields(to.Value())
    requires |msg.written| + |Stream(huff.Abs(), KeysItems(key, WIDTHS[4..], f[4..], t[4..]))| <= 8 * msg.data.Length
    modifies msg`bit, msg`written, msg`cursize, msg`overflowed, msg.data, bloc
    ensures msg.Writing() && (old(msg.overflowed) ==> msg.overflowed)
    ensures msg.written == old(msg.written) + Stream(huff.Abs(), KeysItems(key, WIDTHS[4..], f[4..], t[4..]))
  {
    hide Complete, Stream, KeysItems;
    WriteKey(msg, huff, key, from.rightmove, to.rightmove, 8, f, t, 4, bloc);
    WriteKey(msg, huff, key, from.upmove, to.upmove, 8, f, t, 5, bloc);
    WriteKey(msg, huff, key, from.buttons, to.buttons, 16, f, t, 6, bloc);
    WriteKey(msg, huff, key, from.weapon, to.weapon, 8, f, t, 7, bloc);
  }

  /** The first part of MSG_WriteDeltaUsercmdKey. */
  method WriteTime(msg: Msg, huff: Huff, from: UserCmd, to: UserCmd, ghost items: seq<Item>, bloc: Cursor)
    requires msg.Writing() && Complete(huff.Abs()) && |items| >= 2
    requires items[..2] == TimeItems(from.serverTime, to.serverTime)
    requires |msg.written| + |Stream(huff.Abs(), items)| <= 8 * msg.data.Length
    modifies msg`bit, msg`written, msg`cursize, msg`overflowed, msg.data, bloc
    ensures msg.Writing() && (old(msg.overflowed) ==> msg.overflowed)
    ensures msg.written + Stream(huff.Abs(), items[2..]) == old(msg.written) + Stream(huff.Abs(), items)
  {
    hide Complete, Stream;
    assert items[0..] == items && items[0] == items[..2][0] && items[1] == items[..2][1];
    if Wrap(to.serverTime - from.serverTime) < 256 {
      WriteItem(msg, huff, Item(1, 1), items, 0, bloc);
      WriteItem(msg, huff, Item(Wrap(to.serverTime - from.serverTime), 8), items, 1, bloc);
    } else {
      WriteItem(msg, huff, Item(0, 1), items, 0, bloc);
      WriteItem(msg, huff, Item(to.serverTime, 32), items, 1, bloc);
    }
  }

  /** MSG_WriteDeltaUsercmdKey */
  method WriteDeltaUsercmdKey(msg: Msg, huff: Huff, key: int, from: UserCmd, to: UserCmd, bloc: Cursor)
    requires msg.Writing() && Complete(huff.Abs()) && ValidCmd(from.Value()) && ValidCmd(to.Value())
    requires |msg.written| + |Stream(huff.Abs(), CmdItems(key, from.Value(), to.Value()))| <= 8 * msg.data.Length
    modifies msg`bit, msg`written, msg`cursize, msg`overflowed, msg.data, bloc
    ensures msg.Writing() && (old(msg.overflowed) ==> msg.overflowed)
    ensures msg.written == old(msg.written) + Stream(huff.Abs(), CmdItems(key, from.Value(), to.Value()))
  {
    hide Complete, Stream, KeysItems;
    ghost var items := CmdItems(key, from.Value(), to.Value());
    WriteTime(msg, huff, from, to, items, bloc);
    FieldsAreSame(from.Value(), to.Value());
    if from.angles[0] == to.angles[0] && from.angles[1] == to.angles[1] && from.angles[2] == to.angles[2]
      && from.forwardmove == to.forwardmove && from.rightmove == to.rightmove && from.upmove == to.upmove
      && from.buttons == to.buttons && from.weapon == to.weapon
    {
      WriteItem(msg, huff, Item(0, 1), items, 2, bloc);
      return;
    }
    var key := Xor(key, to.serverTime);
    WriteItem(msg, huff, Item(1, 1), items, 2, bloc);
    assert items[3..] == KeysItems(key, WIDTHS, Fields(from.Value()), Fields(to.Value()));
    WriteKeys(msg, huff, key, from, to, bloc);
  }

  lemma FieldsAreSame(c: Cmd, d: Cmd)
    requires |c.angles| == |d.angles| == 3
    ensures Fields(c) == Fields(d) <==>
      && c.angles[0] == d.angles[0] && c.angles[1] == d.angles[1] && c.angles[2] == d.angles[2]
      && c.forwardmove == d.forwardmove && c.rightmove == d.rightmove && c.upmove == d.upmove
      && c.buttons == d.buttons && c.weapon == d.weapon
  {
    var f, g := Fields(c), Fields(d);
    if f == g {
      assert f[0] == g[0] && f[1] == g[1] && f[2] == g[2] && f[3] == g[3];
      assert f[4] == g[4] && f[5] == g[5] && f[6] == g[6] && f[7] == g[7];
    }
  }

  /** MSG_ReadDeltaKey */
  method ReadDeltaKey(msg: Msg, huff: Huff, key: int, oldV: int, bits: int, bloc: Cursor) returns (v: int)
    requires huff.Abs().tree.Shaped() && msg.bit <= 8 * msg.data.Length && Width(bits)
    requires ReadKeyed(huff.Abs().tree, msg.Rest(), key, oldV, bits).Value?
    modifies msg`bit, msg`readcount, bloc
    ensures msg.bit <= 8 * msg.data.Length
    ensures ReadKeyed(huff.Abs().tree, old(msg.Rest()), key, oldV, bits) == Value(v, msg.Rest())
  {
    hide ReadInt, Bits;
    var changed := msg.ReadBits(huff, 1, bloc);
    if changed != 0 {
      v := msg.ReadBits(huff, bits, bloc);
      return Xor(v, Low(key, Abs(bits) + 1));
    }
    return oldV;
  }

  /** The first k fields of r have been read, and their values are `got`. */
  ghost predicate Halfway(t: Tree, stream: seq<bool>, key: int, from: seq<int>, got: seq<int>, r: Read<seq<int>>) {
    && t.Shaped() && |from| == 8 && |got| <= 8 && r.Value?
    && var more := ReadKeys(t, stream, key, WIDTHS[|got|..], from[|got|..]);
    more.Value? && more.rest == r.rest && got + more.v == r.v
  }

  lemma NotStarted(t: Tree, stream: seq<bool>, key: int, from: seq<int>)
    requires t.Shaped() && |from| == 8 && ReadKeys(t, stream, key, WIDTHS, from).Value?
    ensures Halfway(t, stream, key, from, [], ReadKeys(t, stream, key, WIDTHS, from))
  {
    hide ReadKeys;
    assert WIDTHS[0..] == WIDTHS && from[0..] == from;
  }

  lemma AllRead(t: Tree, stream: seq<bool>, key: int, from: seq<int>, got: seq<int>, r: Read<seq<int>>)
    requires Halfway(t, stream, key, from, got, r) && |got| == 8
    ensures r == Value(got, stream)
  {
    hide ReadKeyed;
    assert got + [] == got;
  }

  /** Reads the next field. */
  method ReadKey(msg: Msg, huff: Huff, key: int, oldV: int, width: int, ghost from: seq<int>, ghost got: seq<int>,
                 ghost r: Read<seq<int>>, bloc: Cursor) returns (v: int)
    requires msg.bit <= 8 * msg.data.Length && |got| < 8 && Halfway(huff.Abs().tree, msg.Rest(), key, from, got, r)
    requires oldV == from[|got|] && width == WIDTHS[|got|]
    modifies msg`bit, msg`readcount, bloc
    ensures msg.bit <= 8 * msg.data.Length
    ensures Halfway(huff.Abs().tree, msg.Rest(), key, from, got + [v], r)
  {
    hide ReadKeyed, Bits, ReadKeys;
    ReadKeysStep(huff.Abs().tree, msg.Rest(), key, WIDTHS, from, |got|);
    v := ReadDeltaKey(msg, huff, key, oldV, width, bloc);
  }

  lemma ReadKeysStep(t: Tree, stream: seq<bool>, key: int, bits: seq<int>, from: seq<int>, k: nat)
    requires t.Shaped() && k < |bits| == |from| && (forall i | 0 <= i < |bits| :: Width(bits[i]))
    requires ReadKeys(t, stream, key, bits[k..], from[k..]).Value?
    ensures
      var v := ReadKeyed(t, stream, key, from[k], bits[k]);
      && v.Value?
      && var r := ReadKeys(t, v.rest, key, bits[k + 1..], from[k + 1..]);
      && r.Value? && r.rest == ReadKeys(t, stream, key, bits[k..], from[k..]).rest
      && ReadKeys(t, stream, key, bits[k..], from[k..]).v == [v.v] + r.v
  {
    hide ReadKeyed;
    assert bits[k..][1..] == bits[k + 1..] && from[k..][1..] == from[k + 1..];
  }

  /** The part of MSG_ReadDeltaUsercmdKey for a command with changes. */
  method ReadKeysInto(msg: Msg, huff: Huff, key: int, from: UserCmd, to: UserCmd, bloc: Cursor)
    requires from != to && |from.angles| == |to.angles| == 3
    requires huff.Abs().tree.Shaped() && msg.bit <= 8 * msg.data.Length
    requires ReadKeys(huff.Abs().tree, msg.Rest(), key, WIDTHS, Fields(from.Value())).Value?
    modifies msg`bit, msg`readcount, to, bloc
    ensures msg.bit <= 8 * msg.data.Length
    ensures
      var r := ReadKeys(huff.Abs().tree, old(msg.Rest()), key, WIDTHS, Fields(from.Value()));
      r.rest == msg.Rest() && |r.v| == 8 && to.Value() == WithFields(old(to.serverTime), r.v)
  {
    hide Bits, ReadKeys, Halfway;
    ghost var f := Fields(from.Value());
    ghost var r := ReadKeys(huff.Abs().tree, msg.Rest(), key, WIDTHS, f);
    NotStarted(huff.Abs().tree, msg.Rest(), key, f);
    var angles := ReadAngles(msg, huff, key, from, f, r, bloc);
    to.angles := angles;
    var v3, v4, v5 := ReadMoves(msg, huff, key, from, f, angles, r, bloc);
    to.forwardmove := SignedChar(v3);
    to.rightmove := SignedChar(v4);
    to.upmove := SignedChar(v5);
    var v6, v7 := ReadLast(msg, huff, key, from, f, angles + [v3] + [v4] + [v5], r, bloc);
    to.buttons := v6;
    to.weapon := v7 % 256;
  }

  method ReadMoves(msg: Msg, huff: Huff, key: int, from: UserCmd, ghost f: seq<int>, ghost got: seq<int>,
          ghost r: Read<seq<int>>, bloc: Cursor)
    returns (forwardmove: int, rightmove: int, upmove: int)
    requires |from.angles| == 3 && f == Fields(from.Value()) && |got| == 3
    requires msg.bit <= 8 * msg.data.Length && Halfway(huff.Abs().tree, msg.Rest(), key, f, got, r)
    modifies msg`bit, msg`readcount, bloc
    ensures msg.bit <= 8 * msg.data.Length
    ensures Halfway(huff.Abs().tree, msg.Rest(), key, f, got + [forwardmove] + [rightmove] + [upmove], r)
  {
    hide Bits, Halfway;
    forwardmove := ReadKey(msg, huff, key, from.forwardmove, 8, f, got, r, bloc);
    rightmove := ReadKey(msg, huff, key, from.rightmove, 8, f, got + [forwardmove], r, bloc);
    upmove := ReadKey(msg, huff, key, from.upmove, 8, f, got + [forwardmove] + [rightmove], r, bloc);
  }

  method ReadAngles(msg: Msg, huff: Huff, key: int, from: UserCmd, ghost f: seq<int>, ghost r: Read<seq<int>>,
          bloc: Cursor)
    returns (angles: seq<int>)
    requires |from.angles| == 3 && f == Fields(from.Value())
    requires msg.bit <= 8 * msg.data.Length && Halfway(huff.Abs().tree, msg.Rest(), key, f, [], r)
    modifies msg`bit, msg`readcount, bloc
    ensures |angles| == 3 && msg.bit <= 8 * msg.data.Length && Halfway(huff.Abs().tree, msg.Rest(), key, f, angles, r)
  {
    hide Bits, Halfway;
    var v0 := ReadKey(msg, huff, key, from.angles[0], 16, f, [], r, bloc);
    var v1 := ReadKey(msg, huff, key, from.angles[1], 16, f, [] + [v0], r, bloc);
    var v2 := ReadKey(msg, huff, key, from.angles[2], 16, f, [] + [v0] + [v1], r, bloc);
    angles := [] + [v0] + [v1] + [v2];
  }

  method ReadLast(msg: Msg, huff: Huff, key: int, from: UserCmd, ghost f: seq<int>, ghost got: seq<int>,
                  ghost r: Read<seq<int>>, bloc: Cursor)
    returns (buttons: int, weapon: int)
    requires |from.angles| == 3 && f == Fields(from.Value()) && |got| == 6
    requires msg.bit <= 8 * msg.data.Length && Halfway(huff.Abs().tree, msg.Rest(), key, f, got, r)
    modifies msg`bit, msg`readcount, bloc
    ensures msg.bit <= 8 * msg.data.Length && r == Value(got + [buttons] + [weapon], msg.Rest())
  {
    hide Bits, Halfway;
    buttons := ReadKey(msg, huff, key, from.buttons, 16, f, got, r, bloc);
    weapon := ReadKey(msg, huff, key, from.weapon, 8, f, got + [buttons], r, bloc);
    AllRead(huff.Abs().tree, msg.Rest(), key, f, got + [buttons] + [weapon], r);
  }

  /** MSG_ReadDeltaUsercmdKey, on a stream that is long enough. */
  method ReadDeltaUsercmdKey(msg: Msg, huff: Huff, key: int, from: UserCmd, to: UserCmd, bloc: Cursor)
    requires from != to && |from.angles| == |to.angles| == 3
    requires huff.Abs().tree.Shaped() && msg.bit <= 8 * msg.data.Length
    requires ReadCmd(huff.Abs().tree, msg.Rest(), key, from.Value()).Value?
    modifies msg`bit, msg`readcount, to, bloc
    ensures msg.bit <= 8 * msg.data.Length
    ensures ReadCmd(huff.Abs().tree, old(msg.Rest()), key, from.Value()) == Read.Value(to.Value(), msg.Rest())
  {
    hide ReadInt, Bits, ReadKeys;
    var near := msg.ReadBits(huff, 1, bloc);
    if near != 0 {
      var d := msg.ReadBits(huff, 8, bloc);
      to.serverTime := Wrap(from.serverTime + d);
    } else {
      to.serverTime := msg.ReadBits(huff, 32, bloc);
    }
    var changed := msg.ReadBits(huff, 1, bloc);
    if changed != 0 {
      ReadKeysInto(msg, huff, Xor(key, to.serverTime), from, to, bloc);
    } else {
      assert from.angles == [from.angles[0], from.angles[1], from.angles[2]];
      to.angles := [from.angles[0], from.angles[1], from.angles[2]];
      to.forwardmove := from.forwardmove;
      to.rightmove := from.rightmove;
      to.upmove := from.upmove;
      to.buttons := from.buttons;
      to.weapon := from.weapon;
    }
  }

  /** A command that is written to a cleared message arrives at a receiver that agrees on the one
      before, if time has not gone backwards. */
  method SendCommand(msg: Msg, compressor: Huff, decompressor: Huff, key: int, from: UserCmd, to: UserCmd,
          held: UserCmd, got: UserCmd, bloc: Cursor)
    requires msg.Writing() && !msg.overflowed && msg.written == []
    requires Complete(compressor.Abs()) && decompressor.Abs() == compressor.Abs()
    requires ValidCmd(from.Value()) && ValidCmd(to.Value()) && Agree(from.Value(), held.Value())
    requires |held.angles| == |got.angles| == 3 && got != held && got != to && got != from
    requires Wrap(to.serverTime - from.serverTime) >= 0
    requires |Stream(compressor.Abs(), CmdItems(key, from.Value(), to.Value()))| <= 8 * msg.data.Length
    modifies msg, msg.data, bloc, got
    ensures !msg.overflowed ==> Agree(to.Value(), got.Value())
  {
    hide Complete, Stream, CmdItems, ReadCmd, Agree, ValidCmd, Bits;
    ghost var s := compressor.Abs();
    WriteDeltaUsercmdKey(msg, compressor, key, from, to, bloc);
    if msg.overflowed {
      return;
    }
    assert msg.written == Stream(s, CmdItems(key, from.Value(), to.Value()));
    msg.BeginReading();
    CmdReadsBack(s, key, from.Value(), to.Value(), held.Value(),
      Bits(msg.data[..], |msg.written|, 8 * msg.data.Length));
    ReadDeltaUsercmdKey(msg, decompressor, key, held, got, bloc);
  }
}
