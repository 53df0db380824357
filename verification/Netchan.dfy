/**
  netchan_t of Shared/net_chan.c: the buffers and counters of both ends of a channel, and packets as
  bytes.
 */
module Netchan {
  import opened BitStream
  import opened Words
  import opened Options
  import opened NetProtocol

  const FRAGMENT_BIT := 0x8000_0000

  /** The two bytes of a short, the lower one first */
  function ShortBytes(v: int): (r: seq<byte>)
    ensures |r| == 2
  {
    WordBytes(v)[..2]
  }

  /** MSG_ReadShort */
  function Load2(m: seq<byte>, a: int): (r: int)
    requires 0 <= a && a + 2 <= |m|
  {
    var v := m[a] as int + 0x100 * m[a + 1] as int;
    if v < 0x8000 then v else v - 0x1_0000
  }

  lemma ShortLoadsBack(v: int)
    requires 0 <= v < 0x8000
    ensures Load2(ShortBytes(v), 0) == v
  {
  }

  lemma ShortLoadsFrom(m: seq<byte>, a: nat)
    requires a + 2 <= |m|
    ensures Load2(m, a) == Load2(m[a..a + 2], 0)
  {
  }

  /** The size of a packet's header */
  function HeaderSize(fragmented: bool, fromClient: bool): nat {
    4 + (if fromClient then 2 else 0) + if fragmented then 4 else 0
  }

  /** The header as it is sent: the sequence number, with FRAGMENT_BIT for a fragment; the port number
      if it comes from a client; the place of a fragment. */
  function Header(p: Packet, fromClient: bool, qport: int): (r: seq<byte>)
    ensures |r| == HeaderSize(p.fragmented, fromClient)
  {
    WordBytes(if p.fragmented then p.sequence - FRAGMENT_BIT else p.sequence)
    + (if fromClient then ShortBytes(qport) else [])
    + if p.fragmented then ShortBytes(p.start) + ShortBytes(p.length) else []
  }

  function Wire(p: Packet, fromClient: bool, qport: int): seq<byte> {
    Header(p, fromClient, qport) + p.payload
  }

  /** What MSG_ReadShort gives: -1 behind the end */
  function ShortAt(bytes: seq<byte>, a: nat): int {
    if a + 2 <= |bytes| then Load2(bytes, a) else -1
  }

  /** What MSG_ReadLong gives: -1 behind the end */
  function LongAt(bytes: seq<byte>, a: nat): int {
    if a + 4 <= |bytes| then Load4(bytes, a) else -1
  }

  /** What is left to read from a position on */
  function Left(bytes: seq<byte>, a: nat): seq<byte> {
    if a <= |bytes| then bytes[a..] else []
  }

  /** The packet that Netchan_Process reads, also from a datagram that ends inside its header. */
  function Parse(bytes: seq<byte>, fromClient: bool): Packet {
    var w := LongAt(bytes, 0);
    var at := if fromClient then 6 else 4;
    if w < 0 then Packet(w + FRAGMENT_BIT, true, ShortAt(bytes, at), ShortAt(bytes, at + 2), Left(bytes, at + 4))
    else Packet(w, false, 0, 0, Left(bytes, at))
  }

  /** The number in two bytes, the lower one first */
  function Little(bytes: seq<byte>, a: nat): int
    requires a + 2 <= |bytes|
  {
    bytes[a] as int + 256 * bytes[a + 1] as int
  }

  /** What stands where in a datagram */
  lemma WireIs(p: Packet, fromClient: bool, qport: int)
    requires 0 <= p.sequence < 0x8000_0000 && 0 <= p.start < 0x8000 && 0 <= p.length < 0x8000
    ensures
      var bytes := Wire(p, fromClient, qport);
      var at := if fromClient then 6 else 4;
      && at + (if p.fragmented then 4 else 0) <= |bytes|
      && Little(bytes, 0) + 65536 * Little(bytes, 2) == p.sequence + (if p.fragmented then 0x8000_0000 else 0)
      && (fromClient ==> Little(bytes, 4) == qport % 65536)
      && (p.fragmented ==> Little(bytes, at) == p.start && Little(bytes, at + 2) == p.length)
      && bytes[at + if p.fragmented then 4 else 0..] == p.payload
  {
    hide WordBytes, ShortBytes, Little;
    var w := if p.fragmented then p.sequence - FRAGMENT_BIT else p.sequence;
    var port := if fromClient then ShortBytes(qport) else [];
    var at := 4 + |port|;
    var bytes := Wire(p, fromClient, qport);
    WordIs(w);
    ShortIs(qport);
    assert bytes[0..2] == WordBytes(w)[0..2] && bytes[2..4] == WordBytes(w)[2..4];
    assert fromClient ==> bytes[4..6] == port[0..2];
    LittleOf(bytes, WordBytes(w), 0, 0);
    LittleOf(bytes, WordBytes(w), 2, 2);
    if fromClient { LittleOf(bytes, port, 4, 0); }
    if p.fragmented {
      ShortIs(p.start);
      ShortIs(p.length);
      assert bytes == WordBytes(w) + port + ShortBytes(p.start) + ShortBytes(p.length) + p.payload;
      LittleOf(bytes, ShortBytes(p.start), at, 0);
      LittleOf(bytes, ShortBytes(p.length), at + 2, 0);
    }
  }

  lemma LittleOf(bytes: seq<byte>, part: seq<byte>, a: nat, b: nat)
    requires a + 2 <= |bytes| && b + 2 <= |part| && bytes[a..a + 2] == part[b..b + 2]
    ensures Little(bytes, a) == Little(part, b)
  {
    assert bytes[a] == bytes[a..a + 2][0] && bytes[a + 1] == bytes[a..a + 2][1];
  }

  lemma WordIs(v: int)
    requires -0x8000_0000 <= v < 0x8000_0000
    ensures Little(WordBytes(v), 0) + 65536 * Little(WordBytes(v), 2) == v + if v < 0 then 0x1_0000_0000 else 0
  {
    Digits(Unsigned(v));
  }

  lemma ShortIs(v: int)
    ensures Little(ShortBytes(v), 0) == v % 65536
  {
    var u := Unsigned(v);
    var q := v / 0x1_0000_0000;
    assert v == 0x1_0000_0000 * q + u;
    assert u % 65536 == u % 256 + 256 * (u / 256 % 256) by { TwoDigits(u); }
    SameRest(u, 65536 * q);
  }

  lemma TwoDigits(u: nat)
    ensures u % 65536 == u % 256 + 256 * (u / 256 % 256)
  {
    var a := u / 256;
    var b := a / 256;
    assert u == 256 * a + u % 256 && a == 256 * b + a % 256;
  }

  lemma SameRest(u: int, q: int)
    ensures (65536 * q + u) % 65536 == u % 65536
  {
  }

  /** A packet is read as it was sent. */
  lemma ParsesWhatWasSent(p: Packet, fromClient: bool, qport: int)
    requires 0 <= p.sequence < FRAGMENT_BIT && 0 <= p.start < 0x8000 && 0 <= p.length < 0x8000
    requires !p.fragmented ==> p.start == p.length == 0
    ensures Parse(Wire(p, fromClient, qport), fromClient) == p
  {
    hide WordBytes, Load4, Load2, ShortBytes;
    var w := if p.fragmented then p.sequence - FRAGMENT_BIT else p.sequence;
    var port := if fromClient then ShortBytes(qport) else [];
    var at := 4 + |port|;
    var bytes := Wire(p, fromClient, qport);
    LoadsWhatWasStored(w);
    LoadsFrom(bytes, 0);
    assert bytes[0..4] == WordBytes(w);
    if p.fragmented {
      ShortLoadsBack(p.start);
      ShortLoadsBack(p.length);
      ShortLoadsFrom(bytes, at);
      ShortLoadsFrom(bytes, at + 2);
      assert bytes == WordBytes(w) + port + ShortBytes(p.start) + ShortBytes(p.length) + p.payload;
      assert bytes[at..at + 2] == ShortBytes(p.start) && bytes[at + 2..at + 4] == ShortBytes(p.length);
    }
  }

  /** A short that ends behind the end is -1. */
  lemma LastIsRead(bytes: seq<byte>, end: nat)
    requires 2 <= end
    ensures ShortAt(bytes, end - 2) == -1 || end <= |bytes|
  {
  }

  /** A datagram that ends inside its header */
  lemma ShortIsEmpty(bytes: seq<byte>, fromClient: bool, r: Receiver, maxsize: int)
    requires |bytes| < HeaderSize(Parse(bytes, fromClient).fragmented, fromClient)
    ensures
      var p := Parse(bytes, fromClient);
      var m := NetProtocol.Process(r, p, maxsize).1;
      m.Some? ==> fromClient && !p.fragmented && 4 <= |bytes| && m.value == []
  {
    hide Load4, Load2;
  }

  /** The fields of msg_t that a channel uses */
  class NetMsg {
    const data: array<byte>
    const maxsize: int
    var cursize: int
    var readcount: int

    /** The part of the message that has not been read */
    function Unread(): seq<byte>
      requires 0 <= readcount && 0 <= cursize <= data.Length
      reads this, data
    {
      Left(data[..cursize], readcount)
    }

    constructor (bytes: array<byte>, size: nat)
      requires size <= bytes.Length
      ensures data == bytes && maxsize == bytes.Length && cursize == size && readcount == 0
    {
      data, maxsize, cursize, readcount := bytes, bytes.Length, size, 0;
    }

    /** MSG_ReadLong of a message that is read without bit stream */
    method ReadLong() returns (c: int)
      requires 0 <= readcount && 0 <= cursize <= data.Length
      modifies this`readcount
      ensures readcount == old(readcount) + 4 && c == LongAt(data[..cursize], old(readcount))
    {
      readcount := readcount + 4;
      if readcount > cursize {
        return -1;
      }
      c := Load4(data[..cursize], readcount - 4);
    }

    /** MSG_ReadShort of such a message */
    method ReadShort() returns (c: int)
      requires 0 <= readcount && 0 <= cursize <= data.Length
      modifies this`readcount
      ensures readcount == old(readcount) + 2 && c == ShortAt(data[..cursize], old(readcount))
    {
      readcount := readcount + 2;
      if readcount > cursize {
        return -1;
      }
      c := Load2(data[..cursize], readcount - 2);
    }
  }

  class Channel {
    const isClient: bool
    const qport: int

    var dropped: int
    var incomingSequence: int
    var outgoingSequence: int

    // incoming fragment assembly
    var fragmentSequence: int
    var fragmentLength: nat
    const fragmentBuffer: array<byte>

    // outgoing fragments
    var unsentFragments: bool
    var unsentFragmentStart: nat
    var unsentLength: nat
    const unsentBuffer: array<byte>

    ghost predicate Valid()
      reads this
    {
      && fragmentBuffer.Length == unsentBuffer.Length == MAX_MSGLEN && fragmentBuffer != unsentBuffer
      && fragmentLength <= MAX_MSGLEN && unsentFragmentStart <= unsentLength <= MAX_MSGLEN
    }

    ghost function SendingHalf(): Sender
      requires Valid()
      reads this, unsentBuffer
    {
      var unsent := if unsentFragments then Some(unsentBuffer[..unsentLength]) else None;
      Sender(outgoingSequence, unsent, unsentFragmentStart)
    }

    ghost function ReceivingHalf(): Receiver
      requires Valid()
      reads this, fragmentBuffer
    {
      Receiver(incomingSequence, fragmentSequence, fragmentBuffer[..fragmentLength])
    }

    /** Netchan_Setup */
    constructor (isClient: bool, qport: int)
      ensures Valid() && fresh(fragmentBuffer) && fresh(unsentBuffer)
      ensures SendingHalf() == Setup().sender && ReceivingHalf() == Setup().receiver
      ensures this.isClient == isClient && this.qport == qport
    {
      this.isClient, this.qport := isClient, qport;
      dropped, incomingSequence, outgoingSequence := 0, 0, 1;
      fragmentSequence, fragmentLength := 0, 0;
      unsentFragments, unsentFragmentStart, unsentLength := false, 0, 0;
      fragmentBuffer := new byte[MAX_MSGLEN];
      unsentBuffer := new byte[MAX_MSGLEN];
    }

    /** Netchan_TransmitNextFragment: the datagram that is sent. */
    method TransmitNextFragment() returns (send: seq<byte>)
      requires Valid() && unsentFragments
      modifies this`unsentFragmentStart, this`outgoingSequence, this`unsentFragments
      ensures Valid() && ReceivingHalf() == old(ReceivingHalf())
      ensures
        var (s, p) := NextFragment(old(SendingHalf()));
        SendingHalf() == s && send == Wire(p, isClient, qport)
    {
      hide WordBytes;
      send := WordBytes(outgoingSequence - FRAGMENT_BIT);
      if isClient {
        send := send + ShortBytes(qport);
      }
      var length := FRAGMENT_SIZE;
      if unsentFragmentStart + length > unsentLength {
        length := unsentLength - unsentFragmentStart;
      }
      send := send + ShortBytes(unsentFragmentStart);
      send := send + ShortBytes(length);
      send := send + unsentBuffer[unsentFragmentStart..unsentFragmentStart + length];
      ghost var p := NextFragment(SendingHalf()).1;
      assert p.payload == unsentBuffer[unsentFragmentStart..unsentFragmentStart + length];
      assert send == Wire(p, isClient, qport);
      unsentFragmentStart := unsentFragmentStart + length;
      if unsentFragmentStart == unsentLength && length != FRAGMENT_SIZE {
        outgoingSequence := outgoingSequence + 1;
        unsentFragments := false;
      }
    }

    /** Netchan_Transmit: the datagram that is sent; a message that is too long is refused. */
    method Transmit(length: nat, data: array<byte>) returns (ok: bool, send: seq<byte>)
      requires Valid() && length <= data.Length && data != unsentBuffer && data != fragmentBuffer && !unsentFragments
      modifies this`unsentFragmentStart, this`unsentLength, this`outgoingSequence, this`unsentFragments, unsentBuffer
      ensures Valid() && ReceivingHalf() == old(ReceivingHalf()) && (ok <==> length <= 16384)
      ensures ok ==>
        var (s, p) := NetProtocol.Transmit(old(SendingHalf()), data[..length]);
        SendingHalf() == s && send == Wire(p, isClient, qport)
    {
      hide WordBytes;
      if length > MAX_MSGLEN {
        return false, [];
      }
      ok := true;
      unsentFragmentStart := 0;
      if length >= FRAGMENT_SIZE {
        unsentFragments := true;
        unsentLength := length;
        Copy(unsentBuffer, 0, data, 0, length);
        assert unsentBuffer[..length] == data[..length];
        send := TransmitNextFragment();
        return;
      }
      send := WordBytes(outgoingSequence);
      outgoingSequence := outgoingSequence + 1;
      if isClient {
        send := send + ShortBytes(qport);
      }
      send := send + data[..length];
    }

    /** The part of Netchan_Process that reads the header */
    method ReadHeader(msg: NetMsg) returns (sequence: int, fragmented: bool, start: int, length: int)
      requires 0 <= msg.cursize <= msg.data.Length
      modifies msg`readcount
      ensures 0 <= msg.readcount && (fragmented ==> length == -1 || msg.readcount <= msg.cursize)
      ensures Parse(msg.data[..msg.cursize], !isClient) == Packet(sequence, fragmented, start, length, msg.Unread())
    {
      hide LongAt, ShortAt;
      msg.readcount := 0;
      sequence := msg.ReadLong();
      fragmented := sequence < 0;
      if fragmented {
        sequence := sequence + FRAGMENT_BIT;
      }
      if !isClient {
        var _ := msg.ReadShort();
      }
      start, length := 0, 0;
      if fragmented {
        start := msg.ReadShort();
        length := msg.ReadShort();
        LastIsRead(msg.data[..msg.cursize], msg.readcount);
      }
    }

    /** Netchan_Process. A datagram that ends inside its header completes no message, with one exception: an
        unfragmented one from a client that ends inside its port number is taken for an empty message. */
    method Process(msg: NetMsg) returns (ok: bool)
      requires Valid() && msg.data != fragmentBuffer && msg.data != unsentBuffer
      requires MAX_MSGLEN + 4 <= msg.maxsize == msg.data.Length && 0 <= msg.cursize <= msg.data.Length
      modifies this`dropped, this`incomingSequence, this`fragmentSequence, this`fragmentLength, fragmentBuffer
      modifies msg`cursize, msg`readcount, msg.data
      ensures Valid() && SendingHalf() == old(SendingHalf())
      ensures 0 <= msg.readcount && 0 <= msg.cursize <= msg.data.Length
      ensures
        var packet := old(Parse(msg.data[..msg.cursize], !isClient));
        var (r, m) := NetProtocol.Process(old(ReceivingHalf()), packet, msg.maxsize);
        && ReceivingHalf() == r && ok == m.Some? && (ok ==> msg.Unread() == m.value)
        && (old(msg.cursize) < HeaderSize(packet.fragmented, !isClient) && ok ==>
            !isClient && !packet.fragmented && 4 <= old(msg.cursize) && msg.Unread() == [])
    {
      hide Parse, HeaderSize, Left;
      ghost var bytes := msg.data[..msg.cursize];
      if |bytes| < HeaderSize(Parse(bytes, !isClient).fragmented, !isClient) {
        ShortIsEmpty(bytes, !isClient, ReceivingHalf(), msg.maxsize);
      }
      var sequence, fragmented, start, length := ReadHeader(msg);
      if sequence <= incomingSequence {
        return false;
      }
      dropped := sequence - (incomingSequence + 1);
      if fragmented {
        ok := TakeFragment(msg, sequence, start, length);
        return;
      }
      incomingSequence := sequence;
      ok := true;
    }

    /** The part of Netchan_Process for a fragment */
    method TakeFragment(msg: NetMsg, sequence: int, start: int, length: int) returns (ok: bool)
      requires Valid() && msg.data != fragmentBuffer && msg.data != unsentBuffer && incomingSequence < sequence
      requires MAX_MSGLEN + 4 <= msg.maxsize == msg.data.Length && 0 <= msg.readcount && 0 <= msg.cursize <= msg.maxsize
      requires length < 0 || msg.readcount <= msg.cursize
      modifies this`incomingSequence, this`fragmentSequence, this`fragmentLength, fragmentBuffer
      modifies msg`cursize, msg`readcount, msg.data
      ensures Valid()
      ensures
        var p := Packet(sequence, true, start, length, old(msg.Unread()));
        var (r, m) := NetProtocol.Process(old(ReceivingHalf()), p, msg.maxsize);
        && 0 <= msg.readcount && 0 <= msg.cursize <= msg.data.Length
        && ReceivingHalf() == r && ok == m.Some? && (ok ==> msg.Unread() == m.value)
      ensures ok ==> msg.readcount == 4 && msg.data[..4] == WordBytes(sequence)
    {
      hide WordBytes;
      ok := AddFragment(msg, sequence, start, length);
      if !ok || length == FRAGMENT_SIZE {
        return false;
      }
      if fragmentLength > msg.maxsize {
        return false;
      }
      Deliver(msg, sequence);
    }

    /** Adds a fragment to those that have come before it. */
    method AddFragment(msg: NetMsg, sequence: int, start: int, length: int) returns (ok: bool)
      requires Valid() && msg.data != fragmentBuffer && 0 <= msg.readcount && 0 <= msg.cursize <= msg.data.Length
      requires length < 0 || msg.readcount <= msg.cursize
      modifies this`fragmentSequence, this`fragmentLength, fragmentBuffer
      ensures Valid() && fragmentSequence == sequence
      ensures
        var got := if old(fragmentSequence) == sequence then old(ReceivingHalf().fragment) else [];
        && ok == (start == |got| && 0 <= length <= |msg.Unread()| && |got| + length <= MAX_MSGLEN)
        && ReceivingHalf().fragment == if ok then got + msg.Unread()[..length] else got
    {
      if sequence != fragmentSequence {
        fragmentSequence := sequence;
        fragmentLength := 0;
      }
      if start != fragmentLength {
        return false;
      }
      if length < 0 || msg.readcount + length > msg.cursize || fragmentLength + length > fragmentBuffer.Length {
        return false;
      }
      ghost var got := fragmentBuffer[..fragmentLength];
      Copy(fragmentBuffer, fragmentLength, msg.data, msg.readcount, length);
      fragmentLength := fragmentLength + length;
      assert fragmentBuffer[..fragmentLength] == got + msg.data[msg.readcount..msg.readcount + length];
      PartOfUnread(msg, length);
      ok := true;
    }

    lemma PartOfUnread(msg: NetMsg, length: nat)
      requires 0 <= msg.readcount && msg.readcount + length <= msg.cursize <= msg.data.Length
      ensures length <= |msg.Unread()|
      ensures msg.Unread()[..length] == msg.data[msg.readcount..msg.readcount + length]
    {
    }

    /** Copies the whole message over the last fragment. */
    method Deliver(msg: NetMsg, sequence: int)
      requires Valid() && msg.data != fragmentBuffer && MAX_MSGLEN + 4 <= msg.data.Length
      modifies this`incomingSequence, this`fragmentLength, msg`cursize, msg`readcount, msg.data
      ensures Valid() && incomingSequence == sequence && fragmentLength == 0
      ensures msg.readcount == 4 <= msg.cursize <= msg.data.Length && msg.data[..4] == WordBytes(sequence)
      ensures msg.Unread() == old(ReceivingHalf().fragment)
    {
      hide WordBytes;
      StoreWord(msg.data, sequence);
      Copy(msg.data, 4, fragmentBuffer, 0, fragmentLength);
      msg.cursize := fragmentLength + 4;
      fragmentLength := 0;
      msg.readcount := 4;
      incomingSequence := sequence;
    }
  }

  /** Com_Memcpy( to + at, from + start, n ) */
  method Copy(to: array<byte>, at: nat, from: array<byte>, start: nat, n: nat)
    requires at + n <= to.Length && start + n <= from.Length && to != from
    modifies to
    ensures to[..] == old(to[..at]) + from[start..start + n] + old(to[at + n..])
  {
    var i := 0;
    while i < n
      invariant 0 <= i <= n
      invariant to[..] == old(to[..at]) + from[start..start + i] + old(to[at + i..])
    {
      to[at + i] := from[start + i];
      i := i + 1;
    }
  }

  method StoreWord(to: array<byte>, v: int)
    requires to.Length >= 4
    modifies to
    ensures to[..] == WordBytes(v) + old(to[4..])
  {
    hide WordBytes;
    var b := WordBytes(v);
    to[0], to[1], to[2], to[3] := b[0], b[1], b[2], b[3];
  }
}
