/**
  The protocol of Shared/net_chan.c: messages are numbered, long ones are sent in fragments, and the
  network may lose, repeat and reorder packets.
 */
module NetProtocol {
  import opened BitStream
  import opened Options

  const MAX_MSGLEN := 16384
  const FRAGMENT_SIZE := 1300

  type Message = seq<byte>

  /** A packet; an unfragmented one has start and length 0, and its payload is the message. */
  datatype Packet = Packet(sequence: int, fragmented: bool, start: int, length: int, payload: seq<byte>)

  /** The sending half of netchan_t: the number of the next message, or of the one whose fragments
      are being sent. */
  datatype Sender = Sender(outgoing: int, unsent: Option<Message>, start: nat)

  /** The receiving half */
  datatype Receiver = Receiver(incoming: int, fragmentSequence: int, fragment: seq<byte>)

  function Min(a: int, b: int): int {
    if a < b then a else b
  }

  /** The fragment of message m from `start` on */
  function Fragment(sequence: int, m: Message, start: nat): Packet
    requires start <= |m|
  {
    var n := Min(FRAGMENT_SIZE, |m| - start);
    Packet(sequence, true, start, n, m[start..start + n])
  }

  /** Netchan_TransmitNextFragment: the packet, and the sender that is left. */
  function NextFragment(s: Sender): (r: (Sender, Packet))
    requires s.unsent.Some? && s.start <= |s.unsent.value|
  {
    var m := s.unsent.value;
    var n := Min(FRAGMENT_SIZE, |m| - s.start);
    var sent := s.(start := s.start + n);
    (if s.start + n == |m| && n != FRAGMENT_SIZE then sent.(outgoing := s.outgoing + 1, unsent := None) else sent,
     Fragment(s.outgoing, m, s.start))
  }

  /** Netchan_Transmit */
  function Transmit(s: Sender, m: Message): (r: (Sender, Packet)) {
    if |m| >= FRAGMENT_SIZE then NextFragment(s.(unsent := Some(m), start := 0))
    else (s.(outgoing := s.outgoing + 1, start := 0), Packet(s.outgoing, false, 0, 0, m))
  }

  /** Netchan_Process: the receiver that is left, and the message if the packet completes one. */
  function Process(r: Receiver, p: Packet, maxsize: int): (Receiver, Option<Message>) {
    if p.sequence <= r.incoming then (r, None)
    else if !p.fragmented then (r.(incoming := p.sequence), Some(p.payload))
    else
      var r := if p.sequence != r.fragmentSequence then r.(fragmentSequence := p.sequence, fragment := []) else r;
      if p.start != |r.fragment| then (r, None)
      else if p.length < 0 || p.length > |p.payload| || |r.fragment| + p.length > MAX_MSGLEN then (r, None)
      else
        var r := r.(fragment := r.fragment + p.payload[..p.length]);
        if p.length == FRAGMENT_SIZE || |r.fragment| > maxsize then (r, None)
        else (r.(incoming := p.sequence, fragment := []), Some(r.fragment))
  }

  /** A connection in one direction: both ends, every packet sent so far, the messages by number,
      and what has been delivered, in order. */
  datatype Connection = Connection(sender: Sender, receiver: Receiver, wire: set<Packet>, sent: map<int, Message>,
                                   delivered: seq<(int, Message)>)

  /** Netchan_Setup */
  function Setup(): Connection {
    Connection(Sender(1, None, 0), Receiver(0, 0, []), {}, map[], [])
  }

  /** Send starts a message, Continue sends the next fragment, Arrive is the arrival of a packet. */
  datatype Event = Send(m: Message) | Continue | Arrive(p: Packet)

  /** What can happen: a new message only when no fragments are left; any packet that has ever been
      sent may arrive, at any time and any number of times. */
  predicate Possible(c: Connection, e: Event, maxsize: int) {
    match e
    case Send(m) => c.sender.unsent.None? && |m| <= 16384 && |m| + 4 <= maxsize
    case Continue => c.sender.unsent.Some? && c.sender.start <= |c.sender.unsent.value|
    case Arrive(p) => p in c.wire
  }

  function Step(c: Connection, e: Event, maxsize: int): Connection
    requires Possible(c, e, maxsize)
  {
    match e
    case Send(m) =>
      var (s, p) := Transmit(c.sender, m);
      c.(sender := s, wire := c.wire + {p}, sent := c.sent[c.sender.outgoing := m])
    case Continue =>
      var (s, p) := NextFragment(c.sender);
      c.(sender := s, wire := c.wire + {p})
    case Arrive(p) =>
      var (r, m) := Process(c.receiver, p, maxsize);
      c.(receiver := r, delivered := if m.Some? then c.delivered + [(p.sequence, m.value)] else c.delivered)
  }

  /** A packet is part of the message with its number. */
  predicate Genuine(sent: map<int, Message>, p: Packet) {
    && p.sequence in sent
    && var m := sent[p.sequence];
    if p.fragmented then
      && 0 <= p.start <= |m| && p.length == Min(FRAGMENT_SIZE, |m| - p.start)
      && p.payload == m[p.start..p.start + p.length]
    else p.payload == m
  }

  /** Every delivered message is the one sent with its number, and the numbers increase. */
  predicate Faithful(sent: map<int, Message>, delivered: seq<(int, Message)>) {
    && (forall i | 0 <= i < |delivered| :: delivered[i].0 in sent && delivered[i].1 == sent[delivered[i].0])
    && (forall i, j | 0 <= i < j < |delivered| :: delivered[i].0 < delivered[j].0)
  }

  predicate Invariant(c: Connection, maxsize: int) {
    && (forall p | p in c.wire :: Genuine(c.sent, p))
    && (forall q | q in c.sent :: |c.sent[q]| <= MAX_MSGLEN && |c.sent[q]| + 4 <= maxsize)
    && (forall q | q in c.sent :: q <= c.sender.outgoing)
    && (c.sender.unsent.None? ==> c.sender.outgoing !in c.sent)
    && (c.sender.unsent.Some? ==>
          && c.sender.outgoing in c.sent && c.sent[c.sender.outgoing] == c.sender.unsent.value
          && c.sender.start <= |c.sender.unsent.value|)
    && (c.receiver.fragment != [] ==>
          && c.receiver.fragmentSequence in c.sent && |c.receiver.fragment| <= |c.sent[c.receiver.fragmentSequence]|
          && c.receiver.fragment == c.sent[c.receiver.fragmentSequence][..|c.receiver.fragment|])
    && Faithful(c.sent, c.delivered)
    && (forall i | 0 <= i < |c.delivered| :: c.delivered[i].0 <= c.receiver.incoming)
  }

  /** What Netchan_Process returns is the message with the packet's number. */
  lemma ProcessIsFaithful(sent: map<int, Message>, r: Receiver, p: Packet, maxsize: int)
    requires Genuine(sent, p) && |sent[p.sequence]| <= MAX_MSGLEN && |sent[p.sequence]| <= maxsize
    requires r.fragment != [] ==>
      && r.fragmentSequence in sent && |r.fragment| <= |sent[r.fragmentSequence]|
      && r.fragment == sent[r.fragmentSequence][..|r.fragment|]
    ensures
      var (r', m) := Process(r, p, maxsize);
      && (r'.fragment != [] ==>
          && r'.fragmentSequence in sent && |r'.fragment| <= |sent[r'.fragmentSequence]|
          && r'.fragment == sent[r'.fragmentSequence][..|r'.fragment|])
      && (m.None? ==> r'.incoming == r.incoming)
      && (m.Some? ==> m.value == sent[p.sequence] && r.incoming < p.sequence == r'.incoming)
  {
    var m := sent[p.sequence];
    if p.fragmented {
      assert m[..p.start] + m[p.start..p.start + p.length] == m[..p.start + p.length];
      assert p.payload[..p.length] == p.payload;
      assert m[..|m|] == m;
    }
  }

  lemma StepKeepsInvariant(c: Connection, e: Event, maxsize: int)
    requires Invariant(c, maxsize) && Possible(c, e, maxsize)
    ensures Invariant(Step(c, e, maxsize), maxsize)
  {
    match e
    case Send(m) =>
      SendKeepsInvariant(c, m, maxsize);
    case Continue =>
      var m := c.sender.unsent.value;
      assert Genuine(c.sent, Fragment(c.sender.outgoing, m, c.sender.start));
    case Arrive(p) =>
      ProcessIsFaithful(c.sent, c.receiver, p, maxsize);
  }

  lemma SendKeepsInvariant(c: Connection, m: Message, maxsize: int)
    requires Invariant(c, maxsize) && Possible(c, Send(m), maxsize)
    ensures Invariant(Step(c, Send(m), maxsize), maxsize)
  {
    var d := Step(c, Send(m), maxsize);
    forall p | p in d.wire ensures Genuine(d.sent, p) {
      if p in c.wire { assert Genuine(c.sent, p); }
    }
  }

  /** A run of the connection */
  ghost predicate Runs(c: Connection, events: seq<Event>, d: Connection, maxsize: int)
    decreases |events|
  {
    if events == [] then d == c
    else Possible(c, events[0], maxsize) && Runs(Step(c, events[0], maxsize), events[1..], d, maxsize)
  }

  lemma {:induction false} RunKeepsInvariant(c: Connection, events: seq<Event>, d: Connection, maxsize: int)
    requires Invariant(c, maxsize) && Runs(c, events, d, maxsize)
    ensures Invariant(d, maxsize)
    decreases |events|
  {
    if events != [] {
      StepKeepsInvariant(c, events[0], maxsize);
      RunKeepsInvariant(Step(c, events[0], maxsize), events[1..], d, maxsize);
    }
  }

  /** Whatever the network does, every delivered message is byte for byte the one that was sent with
      its number, at most once and in increasing order. */
  lemma DeliveryIsFaithful(events: seq<Event>, d: Connection, maxsize: int)
    requires Runs(Setup(), events, d, maxsize)
    ensures Faithful(d.sent, d.delivered)
  {
    RunKeepsInvariant(Setup(), events, d, maxsize);
  }

  /** The packets of a message, in order, from a start on */
  function FragmentsFrom(sequence: int, m: Message, start: nat): (r: seq<Packet>)
    requires start <= |m|
    ensures |r| == (|m| - start) / FRAGMENT_SIZE + 1
    decreases |m| - start
  {
    [Fragment(sequence, m, start)]
    + if |m| - start >= FRAGMENT_SIZE then FragmentsFrom(sequence, m, start + FRAGMENT_SIZE) else []
  }

  function Packets(sequence: int, m: Message): (r: seq<Packet>)
    ensures |r| == if |m| >= FRAGMENT_SIZE then |m| / FRAGMENT_SIZE + 1 else 1
  {
    if |m| >= FRAGMENT_SIZE then FragmentsFrom(sequence, m, 0) else [Packet(sequence, false, 0, 0, m)]
  }

  /** Netchan_TransmitNextFragment until no fragments are left */
  function Rest(s: Sender): (r: (Sender, seq<Packet>))
    requires s.unsent.Some? ==> s.start <= |s.unsent.value|
    decreases if s.unsent.Some? then |s.unsent.value| - s.start + 1 else 0
  {
    if s.unsent.None? then (s, [])
    else
      var (s', p) := NextFragment(s);
      var (end, more) := Rest(s');
      (end, [p] + more)
  }

  /** The sender sends exactly the packets of the message, and is then ready for the next one. */
  lemma {:induction false} RestIsFragments(s: Sender)
    requires s.unsent.Some? && s.start <= |s.unsent.value|
    ensures
      var (end, packets) := Rest(s);
      && packets == FragmentsFrom(s.outgoing, s.unsent.value, s.start)
      && end.outgoing == s.outgoing + 1 && end.unsent.None?
    decreases |s.unsent.value| - s.start
  {
    var (s', p) := NextFragment(s);
    if s'.unsent.Some? {
      RestIsFragments(s');
    }
  }

  lemma MessageIsPackets(s: Sender, m: Message)
    requires s.unsent.None?
    ensures
      var (s', p) := Transmit(s, m);
      var (end, more) := Rest(s');
      && [p] + more == Packets(s.outgoing, m)
      && end.outgoing == s.outgoing + 1 && end.unsent.None?
  {
    if |m| >= FRAGMENT_SIZE {
      RestIsFragments(s.(unsent := Some(m), start := 0));
    }
  }

  /** The payloads of packets, one after the other */
  function Payloads(packets: seq<Packet>): Message {
    if packets == [] then [] else packets[0].payload + Payloads(packets[1..])
  }

  lemma {:induction false} FragmentsCarry(sequence: int, m: Message, start: nat)
    requires start <= |m|
    ensures
      var packets := FragmentsFrom(sequence, m, start);
      && Payloads(packets) == m[start..] && |packets| == (|m| - start) / 1300 + 1
      && forall i | 0 <= i < |packets| ::
           && packets[i].sequence == sequence && packets[i].fragmented && packets[i].start == start + 1300 * i
           && |packets[i].payload| == packets[i].length == if i < |packets| - 1 then 1300 else (|m| - start) % 1300
    decreases |m| - start
  {
    var packets := FragmentsFrom(sequence, m, start);
    var first := Fragment(sequence, m, start);
    if |m| - start >= FRAGMENT_SIZE {
      var more := FragmentsFrom(sequence, m, start + FRAGMENT_SIZE);
      FragmentsCarry(sequence, m, start + FRAGMENT_SIZE);
      assert packets[1..] == more;
      assert m[start..] == first.payload + m[start + FRAGMENT_SIZE..];
      assert forall i | 0 < i < |packets| :: packets[i] == more[i - 1];
    } else {
      assert packets[1..] == [];
      assert first.payload == m[start..];
    }
  }

  /** The packets of a message carry just this message, 1300 bytes each and fewer in the last one; fragments say
      where they belong. */
  lemma PacketsCarry(sequence: int, m: Message)
    ensures
      var packets := Packets(sequence, m);
      && Payloads(packets) == m && |packets| == |m| / 1300 + 1
      && forall i | 0 <= i < |packets| ::
           && packets[i].sequence == sequence && (packets[i].fragmented <==> |m| >= 1300)
           && |packets[i].payload| == (if i < |packets| - 1 then 1300 else |m| % 1300)
           && (packets[i].fragmented ==> packets[i].start == 1300 * i && packets[i].length == |packets[i].payload|)
  {
    if |m| >= FRAGMENT_SIZE {
      FragmentsCarry(sequence, m, 0);
      assert m[0..] == m;
    } else {
      assert Packets(sequence, m)[1..] == [] && m + [] == m;
    }
  }

  /** Packets that arrive one after the other, and the messages they complete */
  function ProcessAll(r: Receiver, packets: seq<Packet>, maxsize: int): (Receiver, seq<Message>)
    decreases |packets|
  {
    if packets == [] then (r, [])
    else
      var (r', m) := Process(r, packets[0], maxsize);
      var (end, more) := ProcessAll(r', packets[1..], maxsize);
      (end, (if m.Some? then [m.value] else []) + more)
  }

  /** The next fragment is kept; the last one completes the message. */
  lemma FragmentArrives(r: Receiver, sequence: int, m: Message, start: nat, maxsize: int)
    requires start <= |m| <= MAX_MSGLEN && |m| <= maxsize && r.incoming < sequence
    requires if start == 0 then r.fragmentSequence == sequence ==> r.fragment == []
      else r.fragmentSequence == sequence && r.fragment == m[..start]
    ensures Process(r, Fragment(sequence, m, start), maxsize) ==
      if |m| - start >= FRAGMENT_SIZE then (Receiver(r.incoming, sequence, m[..start + FRAGMENT_SIZE]), None)
      else (Receiver(sequence, sequence, []), Some(m))
  {
    var p := Fragment(sequence, m, start);
    assert p.payload[..p.length] == p.payload;
    assert m[..start] + p.payload == m[..start + p.length];
    assert m[..|m|] == m && [] + p.payload == p.payload;
  }

  lemma {:induction false} FragmentsArrive(r: Receiver, sequence: int, m: Message, start: nat, maxsize: int)
    requires start <= |m| <= MAX_MSGLEN && |m| <= maxsize && r.incoming < sequence
    requires if start == 0 then r.fragmentSequence == sequence ==> r.fragment == []
      else r.fragmentSequence == sequence && r.fragment == m[..start]
    ensures ProcessAll(r, FragmentsFrom(sequence, m, start), maxsize) == (Receiver(sequence, sequence, []), [m])
    decreases |m| - start
  {
    hide Process, Fragment;
    FragmentArrives(r, sequence, m, start, maxsize);
    var packets := FragmentsFrom(sequence, m, start);
    assert [] + [m] == [m] && [m] + [] == [m];
    if |m| - start >= FRAGMENT_SIZE {
      var r' := Receiver(r.incoming, sequence, m[..start + FRAGMENT_SIZE]);
      FragmentsArrive(r', sequence, m, start + FRAGMENT_SIZE, maxsize);
      assert packets[1..] == FragmentsFrom(sequence, m, start + FRAGMENT_SIZE);
    } else {
      assert packets[1..] == [];
    }
  }

  /** The packets of several messages, sent one after the other */
  function AllPackets(sequence: int, messages: seq<Message>): seq<Packet>
    decreases |messages|
  {
    if messages == [] then [] else Packets(sequence, messages[0]) + AllPackets(sequence + 1, messages[1..])
  }

  lemma {:induction false} ProcessJoins(r: Receiver, a: seq<Packet>, b: seq<Packet>, maxsize: int)
    ensures
      var (r', x) := ProcessAll(r, a, maxsize);
      var (r'', y) := ProcessAll(r', b, maxsize);
      ProcessAll(r, a + b, maxsize) == (r'', x + y)
    decreases |a|
  {
    if a == [] {
      assert a + b == b;
      assert [] + ProcessAll(r, b, maxsize).1 == ProcessAll(r, b, maxsize).1;
    } else {
      var (r', m) := Process(r, a[0], maxsize);
      ProcessJoins(r', a[1..], b, maxsize);
      assert (a + b)[1..] == a[1..] + b;
      var first := if m.Some? then [m.value] else [];
      var (r'', x) := ProcessAll(r', a[1..], maxsize);
      var y := ProcessAll(r'', b, maxsize).1;
      assert first + (x + y) == first + x + y;
    }
  }

  /** A message arrives if none of its packets is lost, and the receiver is ready for the next. */
  lemma MessageArrives(r: Receiver, sequence: int, m: Message, maxsize: int)
    requires r.incoming < sequence && (r.fragmentSequence < sequence || r.fragment == [])
    requires |m| <= MAX_MSGLEN && |m| <= maxsize
    ensures
      var (r', x) := ProcessAll(r, Packets(sequence, m), maxsize);
      x == [m] && r'.incoming < sequence + 1 && (r'.fragmentSequence < sequence + 1 || r'.fragment == [])
  {
    if |m| >= FRAGMENT_SIZE {
      FragmentsArrive(r, sequence, m, 0, maxsize);
    } else {
      assert Packets(sequence, m)[1..] == [];
    }
  }

  /** If no packet is lost or reordered, every message arrives, in order. */
  lemma {:induction false} AllArrive(r: Receiver, sequence: int, messages: seq<Message>, maxsize: int)
    requires r.incoming < sequence && (r.fragmentSequence < sequence || r.fragment == [])
    requires forall i | 0 <= i < |messages| :: |messages[i]| <= MAX_MSGLEN && |messages[i]| <= maxsize
    ensures ProcessAll(r, AllPackets(sequence, messages), maxsize).1 == messages
    decreases |messages|
  {
    if messages != [] {
      var m := messages[0];
      var packets, more := Packets(sequence, m), AllPackets(sequence + 1, messages[1..]);
      MessageArrives(r, sequence, m, maxsize);
      hide Packets, ProcessAll;
      var (r', x) := ProcessAll(r, packets, maxsize);
      ProcessJoins(r, packets, more, maxsize);
      AllArrive(r', sequence + 1, messages[1..], maxsize);
    }
  }

  lemma {:induction false} RunsJoin(c: Connection, a: seq<Event>, d: Connection, b: seq<Event>, e: Connection,
          maxsize: int)
    requires Runs(c, a, d, maxsize) && Runs(d, b, e, maxsize)
    ensures Runs(c, a + b, e, maxsize)
    decreases |a|
  {
    if a == [] {
      assert a + b == b;
    } else {
      RunsJoin(Step(c, a[0], maxsize), a[1..], d, b, e, maxsize);
      assert (a + b)[1..] == a[1..] + b;
    }
  }

  lemma RunsTwo(c: Connection, a: Event, b: Event, maxsize: int)
    requires Possible(c, a, maxsize) && Possible(Step(c, a, maxsize), b, maxsize)
    ensures Runs(c, [a, b], Step(Step(c, a, maxsize), b, maxsize), maxsize)
  {
    assert [a, b][1..] == [b] && [b][1..] == [];
    assert Runs(Step(c, a, maxsize), [b], Step(Step(c, a, maxsize), b, maxsize), maxsize);
  }

  /** The run in which the fragments that are left are sent, each arriving at once, and its end */
  function Finish(c: Connection, maxsize: int): (r: (seq<Event>, Connection))
    requires c.sender.unsent.Some? ==> c.sender.start <= |c.sender.unsent.value|
    ensures r.1.sender.unsent.None?
    decreases if c.sender.unsent.Some? then |c.sender.unsent.value| - c.sender.start + 1 else 0
  {
    if c.sender.unsent.None? then ([], c)
    else
      var p := NextFragment(c.sender).1;
      var d := Step(Step(c, Continue, maxsize), Arrive(p), maxsize);
      var (events, end) := Finish(d, maxsize);
      ([Continue, Arrive(p)] + events, end)
  }

  /** The run in which messages are sent one after the other, every packet arriving at once */
  function SendAll(c: Connection, messages: seq<Message>, maxsize: int): (seq<Event>, Connection)
    requires c.sender.unsent.None? && Short(messages, maxsize)
    decreases |messages|
  {
    if messages == [] then ([], c)
    else
      var p := Transmit(c.sender, messages[0]).1;
      var d := Step(Step(c, Send(messages[0]), maxsize), Arrive(p), maxsize);
      var (events, e) := Finish(d, maxsize);
      var (more, end) := SendAll(e, messages[1..], maxsize);
      ([Send(messages[0]), Arrive(p)] + events + more, end)
  }

  predicate Short(messages: seq<Message>, maxsize: int) {
    forall i | 0 <= i < |messages| :: |messages[i]| <= MAX_MSGLEN && |messages[i]| + 4 <= maxsize
  }

  /** Messages with their numbers */
  function Numbered(sequence: int, messages: seq<Message>): seq<(int, Message)>
    decreases |messages|
  {
    if messages == [] then [] else [(sequence, messages[0])] + Numbered(sequence + 1, messages[1..])
  }

  /** When the rest of a message arrives, so has the message. */
  lemma {:induction false} FinishDelivers(c: Connection, m: Message, maxsize: int)
    requires c.sender.unsent == Some(m) && 0 < c.sender.start <= |m| <= MAX_MSGLEN && |m| + 4 <= maxsize
    requires c.receiver.incoming < c.sender.outgoing == c.receiver.fragmentSequence
    requires c.receiver.fragment == m[..c.sender.start]
    ensures
      var (events, d) := Finish(c, maxsize);
      && Runs(c, events, d, maxsize) && d.delivered == c.delivered + [(c.sender.outgoing, m)]
      && d.sender.unsent.None? && d.sender.outgoing == c.sender.outgoing + 1
      && d.receiver == Receiver(c.sender.outgoing, c.sender.outgoing, [])
    decreases |m| - c.sender.start
  {
    hide Process;
    var p := NextFragment(c.sender).1;
    var c1 := Step(c, Continue, maxsize);
    var c2 := Step(c1, Arrive(p), maxsize);
    FragmentArrives(c.receiver, c.sender.outgoing, m, c.sender.start, maxsize);
    RunsTwo(c, Continue, Arrive(p), maxsize);
    var (events, d) := Finish(c2, maxsize);
    if c2.sender.unsent.Some? {
      FinishDelivers(c2, m, maxsize);
    } else {
      assert Runs(c2, events, d, maxsize);
    }
    RunsJoin(c, [Continue, Arrive(p)], c2, events, d, maxsize);
  }

  /** One message is sent and arrives. */
  lemma MessageDelivers(c: Connection, m: Message, maxsize: int)
    requires c.sender.unsent.None? && |m| <= 16384 && |m| + 4 <= maxsize
    requires c.receiver.incoming < c.sender.outgoing
    requires (c.receiver.fragmentSequence < c.sender.outgoing || c.receiver.fragment == [])
    ensures
      var p := Transmit(c.sender, m).1;
      var (events, d) := Finish(Step(Step(c, Send(m), maxsize), Arrive(p), maxsize), maxsize);
      && Runs(c, [Send(m), Arrive(p)] + events, d, maxsize) && d.delivered == c.delivered + [(c.sender.outgoing, m)]
      && d.sender.unsent.None? && d.sender.outgoing == c.sender.outgoing + 1
      && d.receiver.incoming == c.sender.outgoing
      && (d.receiver.fragmentSequence < d.sender.outgoing || d.receiver.fragment == [])
  {
    var p := Transmit(c.sender, m).1;
    var c1 := Step(c, Send(m), maxsize);
    var c2 := Step(c1, Arrive(p), maxsize);
    RunsTwo(c, Send(m), Arrive(p), maxsize);
    var (events, d) := Finish(c2, maxsize);
    if |m| >= FRAGMENT_SIZE {
      FragmentArrives(c.receiver, c.sender.outgoing, m, 0, maxsize);
      hide Process;
      FinishDelivers(c2, m, maxsize);
    } else {
      assert Runs(c2, events, d, maxsize);
    }
    RunsJoin(c, [Send(m), Arrive(p)], c2, events, d, maxsize);
  }

  lemma MoreIsLeft(c: Connection, m: Message, maxsize: int)
    requires c.sender.unsent.None? && |m| <= 16384 && |m| + 4 <= maxsize
    ensures
      var s := Step(Step(c, Send(m), maxsize), Arrive(Transmit(c.sender, m).1), maxsize).sender;
      s.unsent.Some? ==> s.start <= |s.unsent.value|
  {
  }

  /** On a run without loss every message is delivered, in order. */
  lemma {:induction false} SendAllDelivers(c: Connection, messages: seq<Message>, maxsize: int)
    requires c.sender.unsent.None? && Short(messages, maxsize)
    requires c.receiver.incoming < c.sender.outgoing
    requires (c.receiver.fragmentSequence < c.sender.outgoing || c.receiver.fragment == [])
    ensures
      var (events, d) := SendAll(c, messages, maxsize);
      Runs(c, events, d, maxsize) && d.delivered == c.delivered + Numbered(c.sender.outgoing, messages)
    decreases |messages|
  {
    hide Process, Finish, Transmit, Step;
    if messages != [] {
      var m := messages[0];
      var p := Transmit(c.sender, m).1;
      MoreIsLeft(c, m, maxsize);
      MessageDelivers(c, m, maxsize);
      var (events, e) := Finish(Step(Step(c, Send(m), maxsize), Arrive(p), maxsize), maxsize);
      SendAllDelivers(e, messages[1..], maxsize);
      var (more, d) := SendAll(e, messages[1..], maxsize);
      RunsJoin(c, [Send(m), Arrive(p)] + events, e, more, d, maxsize);
      assert c.delivered + [(c.sender.outgoing, m)] + Numbered(c.sender.outgoing + 1, messages[1..])
        == c.delivered + Numbered(c.sender.outgoing, messages);
    }
  }

  /** From the set-up of a connection on, sending any messages over a network that loses nothing
      delivers exactly these messages, in order. */
  lemma NothingIsLost(messages: seq<Message>, maxsize: int)
    requires Short(messages, maxsize)
    ensures
      var (events, d) := SendAll(Setup(), messages, maxsize);
      Runs(Setup(), events, d, maxsize) && d.delivered == Numbered(1, messages)
  {
    SendAllDelivers(Setup(), messages, maxsize);
  }

  // ---- in order, with strays ----

  /** A message is sent, or its next fragment, and the packet arrives at once; or one that was sent before arrives
      again. */
  datatype Move = Says(m: Message) | GoesOn | Repeats(p: Packet)

  predicate Playable(c: Connection, move: Move, maxsize: int) {
    match move
    case Says(m) => Possible(c, Send(m), maxsize)
    case GoesOn => Possible(c, Continue, maxsize)
    case Repeats(p) => Possible(c, Arrive(p), maxsize)
  }

  function Play(c: Connection, move: Move, maxsize: int): Connection
    requires Playable(c, move, maxsize)
  {
    match move
    case Says(m) => Step(Step(c, Send(m), maxsize), Arrive(Transmit(c.sender, m).1), maxsize)
    case GoesOn => Step(Step(c, Continue, maxsize), Arrive(NextFragment(c.sender).1), maxsize)
    case Repeats(p) => Step(c, Arrive(p), maxsize)
  }

  /** The run leads from c to d. */
  predicate Plays(c: Connection, moves: seq<Move>, d: Connection, maxsize: int)
    decreases |moves|
  {
    if moves == [] then c == d
    else Playable(c, moves[0], maxsize) && Plays(Play(c, moves[0], maxsize), moves[1..], d, maxsize)
  }

  function Began(move: Move): seq<Message> {
    if move.Says? then [move.m] else []
  }

  /** The messages that have been begun */
  function Said(moves: seq<Move>): seq<Message>
    decreases |moves|
  {
    if moves == [] then [] else Began(moves[0]) + Said(moves[1..])
  }

  /** Every packet that has been sent is of a message that is complete, or a fragment that the receiver has. */
  predicate Caught(c: Connection) {
    forall p | p in c.wire ::
      || p.sequence <= c.receiver.incoming
      || (p.fragmented && p.sequence == c.receiver.fragmentSequence && 0 <= p.start < |c.receiver.fragment|)
  }

  /** Such a packet changes nothing when it arrives again. */
  lemma RepeatIsIgnored(c: Connection, p: Packet, maxsize: int)
    requires Caught(c) && p in c.wire
    ensures Step(c, Arrive(p), maxsize) == c
  {
  }

  /** The messages are delivered, up to the one of which fragments are left. */
  predicate InStep(c: Connection, said: seq<Message>) {
    && Caught(c) && c.sender.outgoing > 0
    && match c.sender.unsent
       case None =>
         && c.sender.outgoing == |said| + 1 && c.delivered == Numbered(1, said)
         && c.receiver.incoming == |said| && c.receiver.fragment == []
       case Some(m) =>
         && said != [] && said[|said| - 1] == m && c.sender.outgoing == |said|
         && c.delivered == Numbered(1, said[..|said| - 1]) && 0 < c.sender.start <= |m| <= MAX_MSGLEN
         && c.receiver.incoming == |said| - 1 && c.receiver.fragmentSequence == |said|
         && c.receiver.fragment == m[..c.sender.start]
  }

  lemma {:induction false} NumberedMore(sequence: int, messages: seq<Message>, m: Message)
    ensures Numbered(sequence, messages + [m]) == Numbered(sequence, messages) + [(sequence + |messages|, m)]
    decreases |messages|
  {
    if messages == [] {
      assert [m][1..] == [] && [] + [m] == [m];
    } else {
      NumberedMore(sequence + 1, messages[1..], m);
      assert (messages + [m])[1..] == messages[1..] + [m];
    }
  }

  lemma SaysInStep(c: Connection, said: seq<Message>, m: Message, maxsize: int)
    requires InStep(c, said) && Playable(c, Says(m), maxsize)
    ensures InStep(Play(c, Says(m), maxsize), said + [m])
  {
    NumberedMore(1, said, m);
    assert (said + [m])[..|said|] == said;
    if |m| >= FRAGMENT_SIZE { FragmentArrives(c.receiver, c.sender.outgoing, m, 0, maxsize); }
    hide Numbered;
  }

  lemma GoesOnInStep(c: Connection, said: seq<Message>, maxsize: int)
    requires InStep(c, said) && Playable(c, GoesOn, maxsize) && Fitting(said, maxsize)
    ensures InStep(Play(c, GoesOn, maxsize), said)
  {
    var n := |said| - 1;
    var m := c.sender.unsent.value;
    NumberedMore(1, said[..n], m);
    assert said == said[..n] + [m];
    FragmentArrives(c.receiver, c.sender.outgoing, m, c.sender.start, maxsize);
    hide Numbered, Process;
  }

  /** As long as each packet arrives when it is sent, all messages are delivered in order, and only the last one may
      be still on its way: packets that arrive again in between, at any time and any number of times, change nothing. */
  lemma {:induction false} NothingIsLostAmidRepeats(c: Connection, said: seq<Message>, moves: seq<Move>, d: Connection,
      maxsize: int)
    requires InStep(c, said) && Plays(c, moves, d, maxsize) && Fitting(said, maxsize)
    ensures InStep(d, said + Said(moves))
    decreases |moves|
  {
    hide *;
    PlaysStep(c, moves, d, maxsize);
    if moves == [] {
      assert said + [] == said;
    } else {
      var first := Began(moves[0]);
      MoveInStep(c, said, moves[0], maxsize);
      NothingIsLostAmidRepeats(Play(c, moves[0], maxsize), said + first, moves[1..], d, maxsize);
      assert said + first + Said(moves[1..]) == said + (first + Said(moves[1..]));
    }
  }

  predicate Fitting(said: seq<Message>, maxsize: int) {
    forall i | 0 <= i < |said| :: |said[i]| <= maxsize
  }

  lemma PlaysStep(c: Connection, moves: seq<Move>, d: Connection, maxsize: int)
    requires Plays(c, moves, d, maxsize)
    ensures if moves == [] then c == d && Said(moves) == []
      else
        && Playable(c, moves[0], maxsize) && Plays(Play(c, moves[0], maxsize), moves[1..], d, maxsize)
        && Said(moves) == Began(moves[0]) + Said(moves[1..])
  {
    hide Play, Playable;
  }

  lemma MoveInStep(c: Connection, said: seq<Message>, move: Move, maxsize: int)
    requires InStep(c, said) && Playable(c, move, maxsize) && Fitting(said, maxsize)
    ensures InStep(Play(c, move, maxsize), said + Began(move)) && Fitting(said + Began(move), maxsize)
  {
    hide InStep, Play;
    assert said + [] == said;
    match move {
      case Says(m) => SaysInStep(c, said, m, maxsize);
      case GoesOn => GoesOnInStep(c, said, maxsize);
      case Repeats(p) => RepeatInStep(c, said, p, maxsize);
    }
  }

  lemma RepeatInStep(c: Connection, said: seq<Message>, p: Packet, maxsize: int)
    requires InStep(c, said) && Playable(c, Repeats(p), maxsize)
    ensures InStep(Play(c, Repeats(p), maxsize), said)
  {
    RepeatIsIgnored(c, p, maxsize);
  }

  /** The same from the set-up on, once no fragments are left. */
  lemma AllArriveAmidRepeats(moves: seq<Move>, d: Connection, maxsize: int)
    requires Plays(Setup(), moves, d, maxsize) && d.sender.unsent.None?
    ensures d.delivered == Numbered(1, Said(moves))
  {
    assert InStep(Setup(), []) && [] + Said(moves) == Said(moves);
    NothingIsLostAmidRepeats(Setup(), [], moves, d, maxsize);
  }
}
