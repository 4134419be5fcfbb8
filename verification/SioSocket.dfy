/** socket::impl when its calls are serialised: emits, server packets, connection events and closing. */
module SioSocket {
  import opened Bytes
  import opened JsonGrammar
  import opened Options
  import opened SioMessage
  import opened SioPacket

  const DISCONNECT: int := 1

  /** An ack callback, by identity. */
  type Callback = nat

  /** An id and the callback registered under it. */
  datatype Grant = Grant(id: int, callback: Callback)

  /** The fields of a socket, and as histories: the packets handed to the client and given to send_packet,
      those dropped by a clearing loop, and the callbacks registered and called. ids counts every id drawn
      from the global counter, which holds it modulo 2^32. */
  datatype Sock = Sock(
    nsp: bytes,
    client: bool,
    connected: bool,
    queue: seq<PacketState>,
    acks: map<int, Callback>,
    ids: nat,
    wire: seq<PacketState>,
    emitted: seq<PacketState>,
    lost: seq<PacketState>,
    granted: seq<Grant>,
    fired: seq<Grant>)

  datatype Emission = Emission(name: bytes, msgs: seq<Message>, ack: Option<Callback>)

  function Make(kind: int, nsp: bytes, packId: int, message: Message): PacketState {
    PacketState(MESSAGE_FRAME, kind, nsp, packId, message, 0, [])
  }

  function EventPacket(nsp: bytes, e: Emission, packId: int): PacketState {
    Make(EVENT + UNDETERMINED, nsp, packId, ArrayMessage([StringMessage(e.name)] + e.msgs))
  }

  function AckPacket(nsp: bytes, packId: int, msgs: seq<Message>): PacketState {
    Make(ACK + UNDETERMINED, nsp, packId, ArrayMessage(msgs))
  }

  function SendPacket(s: Sock, p: PacketState): Sock {
    if !s.client then s
    else if s.connected then s.(wire := s.wire + s.queue + [p], queue := [], emitted := s.emitted + [p])
    else s.(queue := s.queue + [p], emitted := s.emitted + [p])
  }

  /** The counter's value, used as key and, cast to int, as packet id. */
  function Key(ids: nat): int {
    ids % TWO32
  }

  /** The next key: the counter wraps at 32 bits. */
  lemma NextKey(ids: nat)
    ensures Key(ids + 1) == if Key(ids) == TWO32 - 1 then 0 else Key(ids) + 1
  {
  }

  function Emit(s: Sock, e: Emission): Sock {
    if !s.client then s
    else
      match e.ack
      case None => SendPacket(s, EventPacket(s.nsp, e, -1))
      case Some(f) =>
        var id := Key(s.ids);
        SendPacket(s.(acks := s.acks[id := f], ids := s.ids + 1, granted := s.granted + [Grant(id, f)]),
                   EventPacket(s.nsp, e, ToInt(id)))
  }

  function EmitAll(s: Sock, es: seq<Emission>): Sock
    decreases |es|
  {
    if es == [] then s else EmitAll(Emit(s, es[0]), es[1..])
  }

  /** on_connected; the open listener emits nested before the queue is drained. */
  function Connected(s: Sock, nested: seq<Emission>): Sock {
    if s.connected then s
    else
      var s' := EmitAll(s.(connected := true), nested);
      s'.(wire := s'.wire + s'.queue, queue := [])
  }

  function Clear(s: Sock): Sock {
    s.(queue := [], lost := s.lost + s.queue)
  }

  function OnClose(s: Sock): Sock {
    if !s.client then s else Clear(s.(client := false, connected := false))
  }

  function OnDisconnect(s: Sock): Sock {
    if s.client && s.connected then Clear(s.(connected := false)) else s
  }

  function OnOpen(s: Sock): Sock {
    if s.client && s.nsp != [SLASH] then s.(wire := s.wire + [Make(CONNECT, s.nsp, -1, Absent)]) else s
  }

  function Close(s: Sock): Sock {
    if s.client && s.connected then SendPacket(s, Make(DISCONNECT, s.nsp, -1, Absent)) else s
  }

  /** on_socketio_ack: the callback is taken out of the map before it is called. */
  function OnAck(s: Sock, msgId: int): Sock {
    var id := msgId % TWO32;
    if id in s.acks then s.(acks := s.acks - {id}, fired := s.fired + [Grant(id, s.acks[id])]) else s
  }

  function Reply(s: Sock, p: PacketState, reply: seq<Message>): Sock {
    if p.packId >= 0 then SendPacket(s, AckPacket(s.nsp, p.packId, reply)) else s
  }

  /** An event packet carries an array that starts with a name. */
  predicate NamesEvent(m: Message) {
    m.ArrayMessage? && m.elements != [] && m.elements[0].StringMessage?
  }

  /** on_message_packet. Whatever listener or callback the packet reaches emits nested; an event's
      listener also leaves the reply to be acknowledged. */
  function OnPacket(s: Sock, p: PacketState, nested: seq<Emission>, reply: seq<Message>): Sock {
    if !s.client || p.nsp != s.nsp then s
    else if p.kind == CONNECT then Connected(s, nested)
    else if p.kind == DISCONNECT then OnClose(s)
    else if p.kind == EVENT || p.kind == BINARY_EVENT then
      if NamesEvent(p.message) then Reply(EmitAll(s, nested), p, reply) else s
    else if p.kind == ACK || p.kind == BINARY_ACK then EmitAll(OnAck(s, p.packId), nested)
    else if p.kind == ERROR then EmitAll(s, nested)
    else s
  }

  // ---------------------------------------------------------------- runs

  /** One serialised call. Elsewhere is another socket drawing an id. */
  datatype Call =
    | Emits(e: Emission)
    | Receives(p: PacketState, nested: seq<Emission>, reply: seq<Message>)
    | Opens
    | Closes
    | Disconnects
    | TimesOut
    | Elsewhere

  function Do(s: Sock, c: Call): Sock {
    match c
    case Emits(e) => Emit(s, e)
    case Receives(p, nested, reply) => OnPacket(s, p, nested, reply)
    case Opens => OnOpen(s)
    case Closes => Close(s)
    case Disconnects => OnDisconnect(s)
    case TimesOut => OnClose(s)
    case Elsewhere => s.(ids := s.ids + 1)
  }

  function Run(s: Sock, cs: seq<Call>): Sock
    decreases |cs|
  {
    if cs == [] then s else Run(Do(s, cs[0]), cs[1..])
  }

  /** A socket as its constructor leaves it, with the id counter wherever other sockets have brought it. */
  function Born(nsp: bytes, ids: nat, online: bool): Sock {
    var s := Sock(nsp, true, false, [], map[], ids, [], [], [], [], []);
    if online then OnOpen(s) else s
  }

  // ---------------------------------------------------------------- order, and what may be lost

  /** The packets that went through send_packet; a connect packet goes straight to the client. */
  function Data(ps: seq<PacketState>): (ds: seq<PacketState>)
    ensures (forall i | 0 <= i < |ps| :: ps[i].kind != CONNECT) ==> ds == ps
  {
    if ps == [] then []
    else if ps[|ps| - 1].kind == CONNECT then Data(ps[..|ps| - 1])
    else Data(ps[..|ps| - 1]) + [ps[|ps| - 1]]
  }

  lemma {:induction false} DataConcat(a: seq<PacketState>, b: seq<PacketState>)
    ensures Data(a + b) == Data(a) + Data(b)
    decreases |b|
  {
    if b == [] {
      assert a + b == a;
    } else {
      assert (a + b)[..|a + b| - 1] == a + b[..|b| - 1];
      DataConcat(a, b[..|b| - 1]);
    }
  }

  predicate NoConnect(ps: seq<PacketState>) {
    forall i | 0 <= i < |ps| :: ps[i].kind != CONNECT
  }

  /** A connected socket has nothing queued; every packet emitted is on the wire or queued or lost, in
      the order emitted; and only a closed socket has lost any. */
  predicate Orderly(s: Sock) {
    && (s.connected ==> s.client && s.queue == [])
    && (!s.client ==> s.queue == [])
    && (s.client ==> s.lost == [])
    && NoConnect(s.queue)
    && s.emitted == Data(s.wire) + s.queue + s.lost
  }

  lemma DataOfOne(p: PacketState)
    requires p.kind != CONNECT
    ensures Data([p]) == [p]
  {
  }

  lemma SentLast(sent: seq<PacketState>, queue: seq<PacketState>, p: PacketState, emitted: seq<PacketState>)
    requires emitted == sent + queue + []
    ensures emitted + [p] == sent + (queue + [p]) + []
    ensures queue == [] ==> emitted + [p] == sent + [p] + [] + []
  {
  }

  lemma SendOrderly(s: Sock, p: PacketState)
    requires Orderly(s) && p.kind != CONNECT
    ensures Orderly(SendPacket(s, p))
    ensures SendPacket(s, p).connected == s.connected && SendPacket(s, p).client == s.client
  {
    hide Data;
    if s.client {
      if s.connected {
        assert s.wire + s.queue + [p] == s.wire + [p];
        DataConcat(s.wire, [p]);
        DataOfOne(p);
      }
      SentLast(Data(s.wire), s.queue, p, s.emitted);
    }
  }

  lemma EmitOrderly(s: Sock, e: Emission)
    requires Orderly(s)
    ensures Orderly(Emit(s, e))
    ensures Emit(s, e).connected == s.connected && Emit(s, e).client == s.client
  {
    hide SendPacket;
    if s.client && e.ack.Some? {
      var id := Key(s.ids);
      var s' := s.(acks := s.acks[id := e.ack.value], ids := s.ids + 1,
                  granted := s.granted + [Grant(id, e.ack.value)]);
      SendOrderly(s', EventPacket(s.nsp, e, ToInt(id)));
    } else {
      SendOrderly(s, EventPacket(s.nsp, e, -1));
    }
  }

  lemma {:induction false} EmitAllOrderly(s: Sock, es: seq<Emission>)
    requires Orderly(s)
    ensures Orderly(EmitAll(s, es))
    ensures EmitAll(s, es).connected == s.connected && EmitAll(s, es).client == s.client
    decreases |es|
  {
    hide Emit, Orderly;
    if es != [] {
      EmitOrderly(s, es[0]);
      EmitAllOrderly(Emit(s, es[0]), es[1..]);
    }
  }

  function Flushed(s: Sock): Sock {
    s.(connected := true, wire := s.wire + s.queue, queue := [])
  }

  lemma FlushOrderly(s: Sock)
    requires Orderly(s) && s.client && !s.connected
    ensures Orderly(Flushed(s))
  {
    DataConcat(s.wire, s.queue);
  }

  /** The listener's first emit drains the queue itself; without one, on_connected does. */
  lemma ConnectFlushes(s: Sock, nested: seq<Emission>)
    requires s.client && !s.connected
    requires EmitAll(Flushed(s), nested).queue == []
    ensures Connected(s, nested) == EmitAll(Flushed(s), nested)
  {
    hide Emit;
    var s1 := s.(connected := true);
    if nested != [] {
      FlushFirst(s1, nested[0]);
      var s' := EmitAll(s1, nested);
      assert s'.wire + [] == s'.wire;
    }
  }

  lemma ConnectOrderly(s: Sock, nested: seq<Emission>)
    requires Orderly(s) && s.client
    ensures Orderly(Connected(s, nested))
  {
    if !s.connected {
      FlushOrderly(s);
      EmitAllOrderly(Flushed(s), nested);
      ConnectFlushes(s, nested);
    }
  }

  lemma FlushFirst(s: Sock, e: Emission)
    requires s.client && s.connected
    ensures Emit(s, e) == Emit(s.(wire := s.wire + s.queue, queue := []), e)
  {
    assert s.wire + s.queue + [] == s.wire + s.queue;
  }

  lemma DoOrderly(s: Sock, c: Call)
    requires Orderly(s)
    ensures Orderly(Do(s, c))
  {
    hide Connected, EmitAll, Emit, SendPacket, Data;
    match c
    case Emits(e) => EmitOrderly(s, e);
    case Receives(p, nested, reply) => PacketOrderly(s, p, nested, reply);
    case Opens =>
      DataConcat(s.wire, [Make(CONNECT, s.nsp, -1, Absent)]);
      DataOfConnect(s.nsp);
    case Closes => SendOrderly(s, Make(DISCONNECT, s.nsp, -1, Absent));
    case _ => assert s.queue + s.lost + [] == s.queue + s.lost;
  }

  lemma DataOfConnect(nsp: bytes)
    ensures Data([Make(CONNECT, nsp, -1, Absent)]) == []
  {
  }

  lemma PacketOrderly(s: Sock, p: PacketState, nested: seq<Emission>, reply: seq<Message>)
    requires Orderly(s)
    ensures Orderly(OnPacket(s, p, nested, reply))
  {
    hide Connected, EmitAll, SendPacket, Data;
    if s.client {
      ConnectOrderly(s, nested);
      EmitAllOrderly(s, nested);
      SendOrderly(EmitAll(s, nested), AckPacket(s.nsp, p.packId, reply));
      EmitAllNsp(s, nested);
      EmitAllOrderly(OnAck(s, p.packId), nested);
    }
  }

  lemma {:induction false} EmitAllNsp(s: Sock, es: seq<Emission>)
    ensures EmitAll(s, es).nsp == s.nsp
    decreases |es|
  {
    if es != [] {
      EmitAllNsp(Emit(s, es[0]), es[1..]);
    }
  }

  lemma {:induction false} RunOrderly(s: Sock, cs: seq<Call>)
    requires Orderly(s)
    ensures Orderly(Run(s, cs))
    decreases |cs|
  {
    hide Do, Orderly;
    if cs != [] {
      DoOrderly(s, cs[0]);
      RunOrderly(Do(s, cs[0]), cs[1..]);
    }
  }

  /** In every run of serialised calls packets go out in the order emitted, a connected socket holds none
      back, and none is lost unless the socket was closed. */
  lemma EmittedInOrder(nsp: bytes, ids: nat, online: bool, cs: seq<Call>)
    ensures var s := Run(Born(nsp, ids, online), cs);
            && (s.connected ==> s.queue == [])
            && (s.client ==> s.emitted == Data(s.wire) + s.queue)
            && s.emitted == Data(s.wire) + s.queue + s.lost
  {
    hide Run;
    DataOfConnect(nsp);
    assert [] + [Make(CONNECT, nsp, -1, Absent)] == [Make(CONNECT, nsp, -1, Absent)];
    RunOrderly(Born(nsp, ids, online), cs);
  }

  // ---------------------------------------------------------------- closed is closed

  lemma DoInert(s: Sock, c: Call)
    requires !s.client
    ensures Do(s, c) == s.(ids := Do(s, c).ids) && (c != Elsewhere ==> Do(s, c) == s)
  {
  }

  /** Once on_close has run, no call does anything. */
  lemma {:induction false} ClosedStaysInert(s: Sock, cs: seq<Call>)
    requires !s.client
    ensures Run(s, cs) == s.(ids := Run(s, cs).ids)
    decreases |cs|
  {
    hide Do;
    if cs != [] {
      DoInert(s, cs[0]);
      ClosedStaysInert(Do(s, cs[0]), cs[1..]);
    }
  }

  // ---------------------------------------------------------------- acks

  predicate DistinctIds(gs: seq<Grant>) {
    forall i, j | 0 <= i < j < |gs| :: gs[i].id != gs[j].id
  }

  /** While no id has wrapped: each id was given to one callback; what is still registered was given and
      has not fired; what fired was given, and once. */
  predicate Accounted(s: Sock) {
    && DistinctIds(s.granted) && DistinctIds(s.fired)
    && (forall g | g in s.granted :: 0 <= g.id < s.ids)
    && (forall id | id in s.acks :: Grant(id, s.acks[id]) in s.granted)
    && (forall g | g in s.fired :: g in s.granted && g.id !in s.acks)
  }

  lemma EmitAccounted(s: Sock, e: Emission)
    requires Accounted(s) && Emit(s, e).ids <= TWO32
    ensures Accounted(Emit(s, e)) && Emit(s, e).ids >= s.ids
  {
    var s' := Emit(s, e);
    if s.client && e.ack.Some? {
      var g := Grant(s.ids, e.ack.value);
      assert s'.granted == s.granted + [g] && s'.acks == s.acks[s.ids := e.ack.value] && s'.fired == s.fired;
      assert forall i | 0 <= i < |s.granted| :: s.granted[i] in s.granted;
      assert g in s'.granted;
    }
  }

  lemma {:induction false} EmitAllAccounted(s: Sock, es: seq<Emission>)
    requires Accounted(s) && EmitAll(s, es).ids <= TWO32
    ensures Accounted(EmitAll(s, es)) && EmitAll(s, es).ids >= s.ids
    decreases |es|
  {
    hide Emit, Accounted;
    if es != [] {
      IdsGrow(Emit(s, es[0]), es[1..]);
      EmitAccounted(s, es[0]);
      EmitAllAccounted(Emit(s, es[0]), es[1..]);
    }
  }

  lemma {:induction false} IdsGrow(s: Sock, es: seq<Emission>)
    ensures EmitAll(s, es).ids >= s.ids
    decreases |es|
  {
    if es != [] {
      IdsGrow(Emit(s, es[0]), es[1..]);
    }
  }

  /** An ack fires the callback registered under its id, which is then no longer registered. */
  lemma AckAccounted(s: Sock, msgId: int)
    requires Accounted(s)
    ensures Accounted(OnAck(s, msgId))
  {
    var id := msgId % TWO32;
    if id in s.acks {
      var g := Grant(id, s.acks[id]);
      assert forall i | 0 <= i < |s.fired| :: s.fired[i] in s.fired;
      assert OnAck(s, msgId).fired == s.fired + [g];
    }
  }

  lemma DoAccounted(s: Sock, c: Call)
    requires Accounted(s) && Do(s, c).ids <= TWO32
    ensures Accounted(Do(s, c)) && Do(s, c).ids >= s.ids
  {
    hide Accounted, EmitAll, Emit, OnAck, NamesEvent, ToInt;
    match c
    case Emits(e) => EmitAccounted(s, e);
    case Receives(p, nested, reply) => PacketAccounted(s, p, nested, reply);
    case _ => SentAccounted(s, Do(s, c));
  }

  lemma SentAccounted(s: Sock, s': Sock)
    requires Accounted(s) && s'.acks == s.acks && s'.ids >= s.ids && s'.granted == s.granted && s'.fired == s.fired
    ensures Accounted(s')
  {
  }

  lemma PacketAccounted(s: Sock, p: PacketState, nested: seq<Emission>, reply: seq<Message>)
    requires Accounted(s) && OnPacket(s, p, nested, reply).ids <= TWO32
    ensures Accounted(OnPacket(s, p, nested, reply)) && OnPacket(s, p, nested, reply).ids >= s.ids
  {
    hide Accounted, EmitAll, Emit, NamesEvent;
    var s' := OnPacket(s, p, nested, reply);
    if s.client && p.nsp == s.nsp {
      if p.kind == CONNECT && !s.connected {
        SentAccounted(s, s.(connected := true));
        EmitAllAccounted(s.(connected := true), nested);
        SentAccounted(EmitAll(s.(connected := true), nested), s');
      } else if p.kind == EVENT || p.kind == BINARY_EVENT {
        if NamesEvent(p.message) {
          EmitAllAccounted(s, nested);
          SentAccounted(EmitAll(s, nested), s');
        }
      } else if p.kind == ACK || p.kind == BINARY_ACK {
        AckAccounted(s, p.packId);
        EmitAllAccounted(OnAck(s, p.packId), nested);
      } else if p.kind == ERROR {
        EmitAllAccounted(s, nested);
      } else {
        SentAccounted(s, s');
      }
    }
  }

  lemma {:induction false} RunIdsGrow(s: Sock, cs: seq<Call>)
    ensures Run(s, cs).ids >= s.ids
    decreases |cs|
  {
    if cs != [] {
      DoIdsGrow(s, cs[0]);
      RunIdsGrow(Do(s, cs[0]), cs[1..]);
    }
  }

  lemma DoIdsGrow(s: Sock, c: Call)
    ensures Do(s, c).ids >= s.ids
  {
    hide EmitAll;
    if c.Receives? {
      IdsGrow(s, c.nested);
      IdsGrow(s.(connected := true), c.nested);
      IdsGrow(OnAck(s, c.p.packId), c.nested);
    }
  }

  lemma {:induction false} RunAccounted(s: Sock, cs: seq<Call>)
    requires Accounted(s) && Run(s, cs).ids <= TWO32
    ensures Accounted(Run(s, cs))
    decreases |cs|
  {
    hide Do, Accounted;
    if cs != [] {
      RunIdsGrow(Do(s, cs[0]), cs[1..]);
      DoAccounted(s, cs[0]);
      RunAccounted(Do(s, cs[0]), cs[1..]);
    }
  }

  /** In every run in which the id counter does not wrap, what fires was registered under the id it fires
      for, and no id fires twice. */
  lemma EachAckOnce(nsp: bytes, ids: nat, online: bool, cs: seq<Call>)
    requires Run(Born(nsp, ids, online), cs).ids <= TWO32
    ensures var s := Run(Born(nsp, ids, online), cs);
            && DistinctIds(s.granted) && DistinctIds(s.fired)
            && (forall g | g in s.fired :: g in s.granted && g.id !in s.acks)
  {
    hide Run;
    RunAccounted(Born(nsp, ids, online), cs);
  }

  /** And it fires only on an ack packet of that id, for this socket while it is open: every other call leaves
      the fired alone. */
  lemma FiresForItsId(s: Sock, c: Call)
    ensures var s' := Do(s, c);
            || s'.fired == s.fired
            || (&& c.Receives? && (c.p.kind == ACK || c.p.kind == BINARY_ACK)
                && s.client && c.p.nsp == s.nsp
                && c.p.packId % TWO32 in s.acks
                && s'.fired == s.fired + [Grant(c.p.packId % TWO32, s.acks[c.p.packId % TWO32])])
  {
    hide EmitAll;
    if c.Receives? {
      NoneFires(s, c.nested);
      NoneFires(s.(connected := true), c.nested);
      NoneFires(OnAck(s, c.p.packId), c.nested);
    }
  }

  lemma {:induction false} NoneFires(s: Sock, es: seq<Emission>)
    ensures EmitAll(s, es).fired == s.fired
    decreases |es|
  {
    if es != [] {
      NoneFires(Emit(s, es[0]), es[1..]);
    }
  }

  // ---------------------------------------------------------------- what an object keeps

  /** A socket in order, with its acks accounted for while no id has wrapped. */
  predicate Sound(s: Sock) {
    Orderly(s) && (s.ids <= TWO32 ==> Accounted(s))
  }

  lemma DoSound(s: Sock, c: Call)
    requires Sound(s)
    ensures Sound(Do(s, c))
  {
    hide Do, Orderly, Accounted;
    DoOrderly(s, c);
    DoIdsGrow(s, c);
    if Do(s, c).ids <= TWO32 {
      DoAccounted(s, c);
    }
  }

  lemma BornSound(nsp: bytes, ids: nat, online: bool)
    ensures Sound(Born(nsp, ids, online))
  {
    DataOfConnect(nsp);
    assert [] + [Make(CONNECT, nsp, -1, Absent)] == [Make(CONNECT, nsp, -1, Absent)];
  }
}
