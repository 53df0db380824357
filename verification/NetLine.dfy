/**
  One direction of a connection in bytes: a channel of Shared/net_chan.c sends datagrams, and the channel
  at the other end gets any of them, at any time and any number of times. It does what the protocol does.
 */
module NetLine {
  import opened BitStream
  import opened Options
  import opened NetProtocol
  import opened Netchan

  /** The fields of a packet fit its header. */
  predicate Sendable(p: Packet) {
    && 0 <= p.sequence < FRAGMENT_BIT && 0 <= p.start < 0x8000 && 0 <= p.length < 0x8000
    && (!p.fragmented ==> p.start == p.length == 0) && |p.payload| <= FRAGMENT_SIZE
  }

  lemma NextIsSendable(s: Sender)
    requires s.unsent.Some? && s.start <= |s.unsent.value| <= MAX_MSGLEN && 0 <= s.outgoing < FRAGMENT_BIT
    ensures Sendable(NextFragment(s).1)
  {
  }

  lemma TransmitIsSendable(s: Sender, m: Message)
    requires |m| <= MAX_MSGLEN && 0 <= s.outgoing < FRAGMENT_BIT
    ensures Sendable(NetProtocol.Transmit(s, m).1)
  {
  }

  class Line {
    const from: Channel
    const to: Channel
    const maxsize: nat
    // the datagrams that have been sent
    var wire: set<seq<byte>>
    ghost var state: Connection

    /** What the protocol has come to */
    ghost predicate Valid()
      reads this, from, to, from.unsentBuffer, to.fragmentBuffer
    {
      && from != to && from.isClient != to.isClient && from.unsentBuffer != to.fragmentBuffer
      && from.unsentBuffer != to.unsentBuffer && maxsize >= MAX_MSGLEN + 4
      && from.Valid() && to.Valid() && from.SendingHalf() == state.sender && to.ReceivingHalf() == state.receiver
      && Invariant(state, maxsize) && 0 <= state.sender.outgoing <= FRAGMENT_BIT
      && (forall p | p in state.wire :: Sendable(p))
      && (forall bytes | bytes in wire :: exists p :: p in state.wire && bytes == Wire(p, from.isClient, from.qport))
    }

    /** Two channels that have been set up */
    constructor (fromClient: bool, qport: int, maxsize: nat)
      requires maxsize >= MAX_MSGLEN + 4
      ensures Valid() && state == Setup() && fresh(from) && fresh(from.unsentBuffer) && fresh(to)
      ensures fresh(to.fragmentBuffer)
    {
      from := new Channel(fromClient, qport);
      to := new Channel(!fromClient, qport);
      this.maxsize, wire, state := maxsize, {}, Setup();
    }

    /** A message is sent, or its first fragment. */
    method Send(length: nat, data: array<byte>) returns (bytes: seq<byte>)
      requires Valid() && !from.unsentFragments && length <= MAX_MSGLEN && length <= data.Length
      requires data != from.unsentBuffer && data != from.fragmentBuffer && state.sender.outgoing < FRAGMENT_BIT
      modifies this`wire, this`state, from, from.unsentBuffer
      ensures Valid() && bytes in wire
      ensures
        var e := Event.Send(old(data[..length]));
        Possible(old(state), e, maxsize) && state == Step(old(state), e, maxsize)
    {
      hide Invariant, Sendable, Wire;
      ghost var c, m := state, data[..length];
      var ok;
      ok, bytes := from.Transmit(length, data);
      TransmitIsSendable(c.sender, m);
      StepKeepsInvariant(c, Event.Send(m), maxsize);
      wire := wire + {bytes};
      state := Step(state, Event.Send(m), maxsize);
    }

    /** The next fragment is sent. */
    method Continue() returns (bytes: seq<byte>)
      requires Valid() && from.unsentFragments && state.sender.outgoing < FRAGMENT_BIT
      modifies this`wire, this`state, from
      ensures Valid() && bytes in wire
      ensures Possible(old(state), Event.Continue, maxsize) && state == Step(old(state), Event.Continue, maxsize)
    {
      hide Invariant, Sendable, Wire;
      ghost var c := state;
      bytes := from.TransmitNextFragment();
      NextIsSendable(c.sender);
      StepKeepsInvariant(c, Event.Continue, maxsize);
      wire := wire + {bytes};
      state := Step(state, Event.Continue, maxsize);
    }

    /** A datagram arrives. If that completes a message, it is the one that was sent with the number of the
        datagram's packet, and none with that number or a higher one has been delivered before. */
    method Arrive(bytes: seq<byte>) returns (message: Option<Message>, ghost p: Packet)
      requires Valid() && bytes in wire
      modifies this`state, to, to.fragmentBuffer
      ensures Valid() && p in old(state.wire) && bytes == Wire(p, from.isClient, from.qport)
      ensures state == Step(old(state), Event.Arrive(p), maxsize)
      ensures message.Some? ==>
        && p.sequence in state.sent && message.value == state.sent[p.sequence]
        && state.delivered == old(state.delivered) + [(p.sequence, message.value)]
        && forall i | 0 <= i < |old(state.delivered)| :: old(state.delivered)[i].0 < p.sequence
      ensures message == None ==> state.delivered == old(state.delivered)
    {
      hide Wire;
      ghost var c := state;
      p :| p in state.wire && bytes == Wire(p, from.isClient, from.qport);
      ParsesWhatWasSent(p, from.isClient, from.qport);
      WireIsShort(p, from.isClient, from.qport);
      StepKeepsInvariant(c, Event.Arrive(p), maxsize);
      LastIsFaithful(Step(c, Event.Arrive(p), maxsize), maxsize);
      hide Invariant, Sendable, Parse, NetProtocol.Process;
      message := Give(to, bytes, maxsize);
      state := Step(state, Event.Arrive(p), maxsize);
    }
  }

  /** A channel gets a datagram in a message of the given size. */
  method Give(to: Channel, bytes: seq<byte>, maxsize: nat) returns (message: Option<Message>)
    requires to.Valid() && |bytes| <= MAX_MSGLEN && maxsize >= MAX_MSGLEN + 4
    modifies to, to.fragmentBuffer
    ensures to.Valid() && to.SendingHalf() == old(to.SendingHalf())
    ensures
      (to.ReceivingHalf(), message) == NetProtocol.Process(old(to.ReceivingHalf()), Parse(bytes, !to.isClient), maxsize)
  {
    hide Parse, NetProtocol.Process;
    var buffer := new byte[maxsize](i => if 0 <= i < |bytes| then bytes[i] else 0);
    assert buffer[..|bytes|] == bytes;
    var msg := new NetMsg(buffer, |bytes|);
    var ok := to.Process(msg);
    message := if ok then Some(msg.Unread()) else None;
  }

  lemma WireIsShort(p: Packet, fromClient: bool, qport: int)
    requires Sendable(p)
    ensures |Wire(p, fromClient, qport)| <= MAX_MSGLEN
  {
  }

  /** The message that was delivered last */
  lemma LastIsFaithful(c: Connection, maxsize: int)
    requires Invariant(c, maxsize)
    ensures c.delivered != [] ==>
      var n := |c.delivered| - 1;
      var (q, m) := c.delivered[n];
      q in c.sent && m == c.sent[q] && forall i | 0 <= i < n :: c.delivered[i].0 < q
  {
  }
}
