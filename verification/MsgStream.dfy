/**
  The message buffer of Shared/msg.c: MSG_WriteBits and MSG_ReadBits in bit-stream mode.
 */
module MsgStream {
  import opened BitStream
  import opened HuffmanTree
  import opened HuffmanCoder
  import opened HuffmanCode
  import opened HuffmanCodec
  import opened MsgCode

  class Msg {
    var overflowed: bool
    var data: array<byte>
    var maxsize: int
    var cursize: int
    var readcount: int
    var bit: nat

    // what the calls since MSG_Clear have asked to write
    ghost var written: seq<bool>

    /** The buffer holds what has been written so far. */
    ghost predicate Streaming()
      reads this, data
    {
      bit == |written| <= 8 * data.Length && Clean(data[..], bit) && Bits(data[..], 0, bit) == written
    }

    /** Between two writes: unless the message has overflowed, it holds all that was written. */
    ghost predicate Writing()
      reads this, data
    {
      if overflowed then maxsize - cursize < 4
      else Streaming() && (cursize == bit / 8 + 1 || cursize == bit == 0)
    }

    /** The bits from the read position on */
    ghost function Rest(): seq<bool>
      requires bit <= 8 * data.Length
      reads this, data
    {
      Bits(data[..], bit, 8 * data.Length)
    }

    /** MSG_Init */
    constructor (bytes: array<byte>, length: int)
      ensures Writing() && !overflowed && written == [] && data == bytes && maxsize == length
    {
      overflowed, data, maxsize, cursize, readcount, bit := false, bytes, length, 0, 0, 0;
      written := [];
    }

    /** MSG_Clear */
    method Clear()
      modifies this`cursize, this`overflowed, this`bit, this`written
      ensures Writing() && !overflowed && written == []
    {
      cursize, overflowed, bit := 0, false, 0;
      written := [];
    }

    /** MSG_BeginReading: all that was written, if it did not overflow, is there to be read. */
    method BeginReading()
      requires Writing() && !overflowed
      modifies this`readcount, this`bit
      ensures bit == 0 && |written| <= 8 * data.Length
      ensures Rest() == written + Bits(data[..], |written|, 8 * data.Length)
    {
      BitsSplit(data[..], 0, bit, 8 * data.Length);
      readcount, bit := 0, 0;
    }

    /** Huff_putBit */
    method PutBit(b: bool, bloc: Cursor)
      requires Streaming() && |written| < 8 * data.Length
      modifies this`bit, this`written, data, bloc
      ensures Streaming() && written == old(written) + [b]
    {
      hide Appended, Clean, Bits;
      bloc.bloc := bit;
      ghost var before := data[..];
      bloc.AddBit(b, data);
      AppendedFits(before, bit, [b], data[..]);
      bit := bloc.bloc;
      written := written + [b];
    }

    /** Huff_offsetTransmit */
    method OffsetTransmit(huff: Huff, ch: Symbol, bloc: Cursor)
      requires Streaming() && Complete(huff.Abs())
      requires |written| + |Transmit(huff.Abs(), ch)| <= 8 * data.Length
      modifies this`bit, this`written, data, bloc
      ensures Streaming() && written == old(written) + Transmit(huff.Abs(), ch)
    {
      hide Invariant, Appended, Clean, Bits, Code;
      ghost var s, before := huff.Abs(), data[..];
      SentCode(s, ch);
      bloc.bloc := bit;
      Send(huff, huff.loc[ch], NIL, bloc, data);
      AppendedFits(before, bit, Transmit(s, ch), data[..]);
      bit := bloc.bloc;
      written := written + Transmit(s, ch);
    }

    /** MSG_WriteBits, for values whose code fits the buffer. */
    method WriteBits(huff: Huff, value: int, bits: int, bloc: Cursor)
      requires Writing() && Width(bits) && Complete(huff.Abs())
      requires |written| + |Field(huff.Abs(), Masked(value, bits), Abs(bits))| <= 8 * data.Length
      modifies this`bit, this`written, this`cursize, this`overflowed, data, bloc
      ensures Writing() && (overflowed <==> old(overflowed) || old(maxsize - cursize) < 4)
      ensures written == old(written) + Field(huff.Abs(), Masked(value, bits), Abs(bits))
    {
      hide Complete, Field, Clean, Bits, Bytes, LowBits, Low, Shr, Transmit, Pow2;
      ghost var s, start := huff.Abs(), written;
      ghost var all := start + Field(s, Masked(value, bits), Abs(bits));
      if maxsize - cursize < 4 {
        overflowed := true;
        written := all;
        return;
      }
      var count := Abs(bits);
      var rest: nat := Masked(value, bits);
      FieldParts(s, rest, count);
      ghost var low, high := LowBits(rest, count % 8), Bytes(s, Shr(rest, count % 8), count / 8);
      assert start + low + high == all;
      LowBitsEnd(rest);
      if count % 8 != 0 {
        var nbits := count % 8;
        rest := WriteLow(rest, nbits, bloc);
        count := count - nbits;
      }
      WriteBytes(huff, rest, count, bloc);
      cursize := bit / 8 + 1;
    }

    /** The loop of MSG_WriteBits over the odd low bits. */
    method WriteLow(value: nat, nbits: nat, bloc: Cursor) returns (rest: nat)
      requires Streaming() && |written| + nbits <= 8 * data.Length
      modifies this`bit, this`written, data, bloc
      ensures Streaming() && written == old(written) + LowBits(value, nbits) && rest == Shr(value, nbits)
    {
      hide Clean, Bits, LowBits, Shr;
      ghost var all := written + LowBits(value, nbits);
      rest := value;
      var i := 0;
      while i < nbits
        invariant 0 <= i <= nbits && Streaming()
        invariant written + LowBits(rest, nbits - i) == all && Shr(rest, nbits - i) == Shr(value, nbits)
      {
        LowBitsStep(rest, nbits - i);
        PutBit(rest % 2 == 1, bloc);
        rest := rest / 2;
        i := i + 1;
      }
      LowBitsEnd(rest);
    }

    /** The loop of MSG_WriteBits over the bytes above them. */
    method WriteBytes(huff: Huff, value: nat, count: nat, bloc: Cursor)
      requires Streaming() && Complete(huff.Abs()) && count % 8 == 0
      requires |written| + |Bytes(huff.Abs(), value, count / 8)| <= 8 * data.Length
      modifies this`bit, this`written, data, bloc
      ensures Streaming() && written == old(written) + Bytes(huff.Abs(), value, count / 8)
    {
      hide Complete, Clean, Bits, Bytes, Transmit;
      ghost var s := huff.Abs();
      ghost var all := written + Bytes(s, value, count / 8);
      var rest := value;
      var i := 0;
      ghost var left := count / 8;
      while i < count
        invariant 0 <= i <= count && count - i == 8 * left && left >= 0 && Streaming()
        invariant written + Bytes(s, rest, left) == all
      {
        BytesStep(s, rest, left);
        OffsetTransmit(huff, rest % 256, bloc);
        rest := rest / 256;
        left := left - 1;
        i := i + 8;
      }
      BytesEnd(s, rest);
    }

    /** Huff_getBit */
    method GetBit(bloc: Cursor) returns (b: bool)
      requires bit < 8 * data.Length
      modifies this`bit, bloc
      ensures bit == old(bit) + 1 && old(Rest()) == [b] + Rest()
    {
      bloc.bloc := bit;
      b := bloc.GetBit(data, 0);
      assert data[0..] == data[..];
      bit := bloc.bloc;
    }

    /** Huff_offsetReceive */
    method OffsetReceive(huff: Huff, bloc: Cursor) returns (get: int)
      requires huff.Abs().tree.Shaped() && bit <= 8 * data.Length && ReadByte(huff.Abs().tree, Rest()).Value?
      modifies this`bit, bloc
      ensures bit <= 8 * data.Length && ReadByte(huff.Abs().tree, old(Rest())) == Value(get, Rest())
    {
      hide Walk, Bits;
      bloc.bloc := bit;
      assert data[0..] == data[..];
      get := ReceiveSymbol(huff, bloc, data, 0, 8 * data.Length);
      bit := bloc.bloc;
    }

    /** MSG_ReadBits, on a stream that holds the value. */
    method ReadBits(huff: Huff, bits: int, bloc: Cursor) returns (value: int)
      requires huff.Abs().tree.Shaped() && bit <= 8 * data.Length && Width(bits)
      requires ReadInt(huff.Abs().tree, Rest(), bits).Value?
      modifies this`bit, this`readcount, bloc
      ensures bit <= 8 * data.Length && ReadInt(huff.Abs().tree, old(Rest()), bits) == Value(value, Rest())
    {
      hide Walk, Bits, ReadByte, Pow2, ReadLow, ReadBytes;
      var count := Abs(bits);
      var nbits := count % 8;
      value := ReadLowBits(nbits, bloc);
      count := count - nbits;
      value := ReadHighBytes(huff, value, count, nbits, bloc);
      readcount := bit / 8 + 1;
      if bits < 0 {
        if count > 0 && Bit(value, count - 1) {
          value := Low(value, count) - Pow2(count);
        }
      } else if bits == 32 && value >= 0x8000_0000 {
        value := value - 0x1_0000_0000;
      }
    }

    /** The loop of MSG_ReadBits over the odd low bits. */
    method ReadLowBits(nbits: nat, bloc: Cursor) returns (value: int)
      requires bit <= 8 * data.Length && ReadLow(Rest(), nbits).Value?
      modifies this`bit, bloc
      ensures bit <= 8 * data.Length && ReadLow(old(Rest()), nbits) == Value(value, Rest())
    {
      hide Bits, Pow2, ReadLow;
      ghost var low := ReadLow(Rest(), nbits);
      value := 0;
      PowerOfZero(low.v);
      var i := 0;
      while i < nbits
        invariant 0 <= i <= nbits && bit <= 8 * data.Length
        invariant ReadLow(Rest(), nbits - i).Value? && ReadLow(Rest(), nbits - i).rest == low.rest
        invariant value + Pow2(i) * ReadLow(Rest(), nbits - i).v == low.v
      {
        ReadLowStep(Rest(), nbits - i, Pow2(i));
        PowerStep(i);
        var b := GetBit(bloc);
        value := value + if b then Pow2(i) else 0;
        i := i + 1;
      }
      ReadLowEnd(Rest(), Pow2(nbits));
    }

    /** The loop of MSG_ReadBits over the bytes above them. */
    method ReadHighBytes(huff: Huff, low: int, count: nat, nbits: nat, bloc: Cursor) returns (value: int)
      requires huff.Abs().tree.Shaped() && bit <= 8 * data.Length && count % 8 == 0
      requires ReadBytes(huff.Abs().tree, Rest(), count / 8).Value?
      modifies this`bit, bloc
      ensures bit <= 8 * data.Length
      ensures var high := ReadBytes(huff.Abs().tree, old(Rest()), count / 8);
        Rest() == high.rest && value == low + Pow2(nbits) * high.v
    {
      hide Bits, Pow2, ReadByte, ReadBytes;
      ghost var t := huff.Abs().tree;
      ghost var high := ReadBytes(t, Rest(), count / 8);
      value := low;
      var i := 0;
      while i < count
        invariant 0 <= i <= count && i % 8 == 0 && bit <= 8 * data.Length
        invariant ReadBytes(t, Rest(), (count - i) / 8).Value?
        invariant ReadBytes(t, Rest(), (count - i) / 8).rest == high.rest
        invariant value + Pow2(i + nbits) * ReadBytes(t, Rest(), (count - i) / 8).v == low + Pow2(nbits) * high.v
      {
        ReadBytesStep(t, Rest(), (count - i) / 8, Pow2(i + nbits));
        EightMore(i + nbits);
        var get := OffsetReceive(huff, bloc);
        value := value + get * Pow2(i + nbits);
        i := i + 8;
      }
      ReadBytesEnd(t, Rest(), Pow2(i + nbits));
    }
  }

  lemma FieldParts(s: Fgk, v: nat, n: nat)
    requires Complete(s)
    ensures Field(s, v, n) == LowBits(v, n % 8) + Bytes(s, Shr(v, n % 8), n / 8)
  {
  }

  lemma LowBitsStep(v: nat, n: nat)
    requires n > 0
    ensures LowBits(v, n) == [v % 2 == 1] + LowBits(v / 2, n - 1) && Shr(v, n) == Shr(v / 2, n - 1)
  {
  }

  lemma LowBitsEnd(v: nat)
    ensures LowBits(v, 0) == [] && Shr(v, 0) == v
  {
  }

  lemma BytesStep(s: Fgk, v: nat, n: nat)
    requires n > 0 && Complete(s)
    ensures Valid(s) && |s.loc| == NYT + 1 && Bytes(s, v, n) == Transmit(s, v % 256) + Bytes(s, v / 256, n - 1)
  {
  }

  lemma BytesEnd(s: Fgk, v: nat)
    requires Complete(s)
    ensures Bytes(s, v, 0) == []
  {
  }

  lemma PowerOfZero(v: int)
    ensures Pow2(0) * v == v
  {
  }

  lemma PowerStep(i: nat)
    ensures Pow2(i + 1) == 2 * Pow2(i)
  {
  }

  lemma EightMore(k: nat)
    ensures Pow2(k + 8) == 256 * Pow2(k)
  {
    PowersUsed();
    Pow2Adds(k, 8);
  }

  lemma ReadLowStep(bits: seq<bool>, n: nat, p: nat)
    requires n > 0 && ReadLow(bits, n).Value?
    ensures bits != []
    ensures var r := ReadLow(bits[1..], n - 1);
      && r.Value? && r.rest == ReadLow(bits, n).rest
      && p * ReadLow(bits, n).v == (if bits[0] then p else 0) + 2 * p * r.v
  {
    var more := ReadLow(bits[1..], n - 1).v;
    assert p * (2 * more) == 2 * p * more;
    assert p * (1 + 2 * more) == p + p * (2 * more);
  }

  lemma ReadLowEnd(bits: seq<bool>, p: nat)
    ensures ReadLow(bits, 0) == Value(0, bits) && p * 0 == 0
  {
  }

  lemma ReadBytesStep(t: Tree, bits: seq<bool>, n: nat, p: nat)
    requires t.Shaped() && n > 0 && ReadBytes(t, bits, n).Value?
    ensures ReadByte(t, bits).Value?
    ensures var Value(get, rest) := ReadByte(t, bits); var r := ReadBytes(t, rest, n - 1);
      && r.Value? && r.rest == ReadBytes(t, bits, n).rest
      && p * ReadBytes(t, bits, n).v == get * p + 256 * p * r.v
  {
    hide ReadByte;
    var get, more := ReadByte(t, bits).v, ReadBytes(t, ReadByte(t, bits).rest, n - 1).v;
    assert p * (256 * more) == 256 * p * more;
    assert p * (get + 256 * more) == p * get + p * (256 * more);
  }

  lemma ReadBytesEnd(t: Tree, bits: seq<bool>, p: nat)
    requires t.Shaped()
    ensures ReadBytes(t, bits, 0) == Value(0, bits) && p * 0 == 0
  {
  }

  /** The first of some items is what the next MSG_WriteBits writes. */
  lemma FirstWritten(s: Fgk, items: seq<Item>)
    requires Complete(s) && items != []
    ensures Stream(s, items) == Field(s, Masked(items[0].value, items[0].bits), Abs(items[0].bits))
      + Stream(s, items[1..])
  {
  }

  lemma NothingWritten(s: Fgk)
    requires Complete(s)
    ensures Stream(s, []) == []
  {
  }

  /** Writes item k of those that are to be written. */
  method WriteItem(msg: Msg, huff: Huff, item: Item, ghost items: seq<Item>, ghost k: nat, bloc: Cursor)
    requires msg.Writing() && Complete(huff.Abs()) && k < |items| && items[k] == item && Width(item.bits)
    requires |msg.written| + |Stream(huff.Abs(), items[k..])| <= 8 * msg.data.Length
    modifies msg`bit, msg`written, msg`cursize, msg`overflowed, msg.data, bloc
    ensures msg.Writing() && (old(msg.overflowed) ==> msg.overflowed)
    ensures msg.written + Stream(huff.Abs(), items[k + 1..]) == old(msg.written) + Stream(huff.Abs(), items[k..])
    ensures k + 1 == |items| ==> msg.written == old(msg.written) + Stream(huff.Abs(), items[k..])
  {
    hide Complete, Field, Stream;
    FirstWritten(huff.Abs(), items[k..]);
    NothingWritten(huff.Abs());
    assert k + 1 == |items| ==> items[k + 1..] == [];
    assert items[k..][1..] == items[k + 1..];
    msg.WriteBits(huff, item.value, item.bits, bloc);
  }

  /** Writes all the items. */
  method WriteAll(msg: Msg, huff: Huff, items: seq<Item>, bloc: Cursor)
    requires msg.Writing() && Complete(huff.Abs()) && Widths(items)
    requires |msg.written| + |Stream(huff.Abs(), items)| <= 8 * msg.data.Length
    modifies msg`bit, msg`written, msg`cursize, msg`overflowed, msg.data, bloc
    ensures msg.Writing() && msg.written == old(msg.written) + Stream(huff.Abs(), items)
  {
    hide Complete, Stream;
    ghost var s, all := huff.Abs(), msg.written + Stream(huff.Abs(), items);
    assert items[0..] == items;
    var i := 0;
    while i < |items|
      invariant 0 <= i <= |items| && msg.Writing() && msg.written + Stream(s, items[i..]) == all
    {
      WriteItem(msg, huff, items[i], items, i, bloc);
      i := i + 1;
    }
    NothingWritten(s);
    assert items[i..] == [];
  }

  lemma ReadsNext(t: Tree, bits: seq<bool>, items: seq<Item>, i: nat)
    requires t.Shaped() && Widths(items) && i < |items| && ReadInts(t, bits, items[i..]).Value?
    ensures
      var v := ReadInt(t, bits, items[i].bits);
      && v.Value? && ReadInts(t, v.rest, items[i + 1..]).Value?
      && ReadInts(t, bits, items[i..]).v == [v.v] + ReadInts(t, v.rest, items[i + 1..]).v
  {
    hide ReadInt;
    assert items[i..][1..] == items[i + 1..];
  }

  /** Reads values with the widths of the items. */
  method ReadAll(msg: Msg, huff: Huff, items: seq<Item>, bloc: Cursor) returns (values: seq<int>)
    requires huff.Abs().tree.Shaped() && msg.bit <= 8 * msg.data.Length && Widths(items)
    requires ReadInts(huff.Abs().tree, msg.Rest(), items).Value?
    modifies msg`bit, msg`readcount, bloc
    ensures values == ReadInts(huff.Abs().tree, old(msg.Rest()), items).v
  {
    hide ReadInt, ReadInts, Bits;
    ghost var t := huff.Abs().tree;
    ghost var all := ReadInts(t, msg.Rest(), items).v;
    assert items[0..] == items && [] + all == all;
    values := [];
    var i := 0;
    while i < |items|
      invariant 0 <= i <= |items| && msg.bit <= 8 * msg.data.Length && ReadInts(t, msg.Rest(), items[i..]).Value?
      invariant values + ReadInts(t, msg.Rest(), items[i..]).v == all
    {
      ReadsNext(t, msg.Rest(), items, i);
      var v := msg.ReadBits(huff, items[i].bits, bloc);
      assert values + ([v] + ReadInts(t, msg.Rest(), items[i + 1..]).v) == all;
      values := values + [v];
      i := i + 1;
    }
    NothingRead(t, msg.Rest(), items[i..]);
  }

  lemma NothingRead(t: Tree, bits: seq<bool>, items: seq<Item>)
    requires t.Shaped() && items == []
    ensures ReadInts(t, bits, items) == Value([], bits)
  {
  }

  /** What is written to a cleared message and does not overflow it is read back, value for value. */
  method WriteThenRead(msg: Msg, compressor: Huff, decompressor: Huff, items: seq<Item>, bloc: Cursor)
    returns (values: seq<int>)
    requires msg.Writing() && !msg.overflowed && msg.written == [] && Widths(items)
    requires Complete(compressor.Abs()) && decompressor.Abs() == compressor.Abs()
    requires |Stream(compressor.Abs(), items)| <= 8 * msg.data.Length
    modifies msg, msg.data, bloc
    ensures !msg.overflowed ==> values == Values(items)
  {
    hide Complete, Stream, ReadInts, Bits;
    ghost var s := compressor.Abs();
    WriteAll(msg, compressor, items, bloc);
    values := [];
    if !msg.overflowed {
      msg.BeginReading();
      assert msg.written == Stream(s, items);
      StreamReadsBack(s, items, Bits(msg.data[..], |msg.written|, 8 * msg.data.Length));
      values := ReadAll(msg, decompressor, items, bloc);
    }
  }
}
