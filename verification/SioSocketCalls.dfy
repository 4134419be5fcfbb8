/** What a socket's calls ask for, read off the calls alone: when it is open and connected, which packets they
    want sent, what of it has to be on the wire, and which callbacks have to be called. The runs of SioSocket do
    exactly that. */
module SioSocketCalls {
  import opened Bytes
  import opened SioMessage
  import opened SioPacket
  import opened SioSocket

  const TWO32: int := 0x1_0000_0000

  // ---------------------------------------------------------------- open and connected

  /** A packet of the given type for the namespace. */
  predicate Arrives(nsp: bytes, c: Call, kind: int) {
    c.Receives? && c.p.nsp == nsp && c.p.kind == kind
  }

  predicate Ends(nsp: bytes, c: Call) {
    c == TimesOut || Arrives(nsp, c, 1)
  }

  /** Neither a disconnect packet nor a time-out has closed it. */
  predicate IsOpen(nsp: bytes, cs: seq<Call>) {
    forall i | 0 <= i < |cs| :: !Ends(nsp, cs[i])
  }

  /** A connect packet has come, and the connection was not lost since. */
  predicate IsConnected(nsp: bytes, cs: seq<Call>) {
    IsOpen(nsp, cs) && exists i | 0 <= i < |cs| :: Arrives(nsp, cs[i], 0) && Unbroken(cs, i + 1)
  }

  predicate Unbroken(cs: seq<Call>, from: nat) {
    forall j | from <= j < |cs| :: cs[j] != Disconnects
  }

  lemma OpenMore(nsp: bytes, cs: seq<Call>, c: Call)
    ensures IsOpen(nsp, cs + [c]) <==> IsOpen(nsp, cs) && !Ends(nsp, c)
  {
    var more := cs + [c];
    assert more[|cs|] == c && forall i | 0 <= i < |cs| :: more[i] == cs[i];
  }

  lemma ConnectedMore(nsp: bytes, cs: seq<Call>, c: Call)
    ensures IsConnected(nsp, cs + [c])
        <==> IsOpen(nsp, cs + [c]) && (Arrives(nsp, c, 0) || (IsConnected(nsp, cs) && c != Disconnects))
  {
    var more := cs + [c];
    hide IsOpen, Ends, Arrives;
    OpenMore(nsp, cs, c);
    assert more[|cs|] == c && forall i | 0 <= i < |cs| :: more[i] == cs[i];
    if Arrives(nsp, c, 0) {
      assert Unbroken(more, |cs| + 1);
    }
    if IsConnected(nsp, cs) && c != Disconnects {
      var i :| 0 <= i < |cs| && Arrives(nsp, cs[i], 0) && Unbroken(cs, i + 1);
      assert Arrives(nsp, more[i], 0) && Unbroken(more, i + 1);
    }
    if IsConnected(nsp, more) && !Arrives(nsp, c, 0) {
      var i :| 0 <= i < |more| && Arrives(nsp, more[i], 0) && Unbroken(more, i + 1);
      assert Arrives(nsp, cs[i], 0) && Unbroken(cs, i + 1);
    }
  }

  // ---------------------------------------------------------------- the packets asked for

  predicate IsEvent(nsp: bytes, c: Call) {
    && (Arrives(nsp, c, 2) || Arrives(nsp, c, 5))
    && c.p.message.ArrayMessage? && |c.p.message.elements| > 0 && c.p.message.elements[0].StringMessage?
  }

  /** What is emitted during a call: by its caller, by the listener it reaches or by the callback. A socket that
      is connected already does not tell its listener again. */
  function Emissions(nsp: bytes, c: Call, connected: bool): seq<Emission> {
    if c.Emits? then [c.e]
    else if Arrives(nsp, c, 0) && connected then []
    else if Arrives(nsp, c, 0) || IsEvent(nsp, c) || Arrives(nsp, c, 3) || Arrives(nsp, c, 6) || Arrives(nsp, c, 4) then
      c.nested
    else []
  }

  /** How many ids a list of emissions draws: one for each callback. */
  function Draws(es: seq<Emission>): nat {
    if es == [] then 0 else (if es[0].ack.Some? then 1 else 0) + Draws(es[1..])
  }

  /** How many ids have been drawn from the global counter, in this socket or another. */
  function Drawn(nsp: bytes, ids: nat, cs: seq<Call>): nat
    decreases |cs|
  {
    if cs == [] then ids
    else
      var before, c := cs[..|cs| - 1], cs[|cs| - 1];
      Drawn(nsp, ids, before)
      + (if c == Elsewhere then 1
         else if IsOpen(nsp, before) then Draws(Emissions(nsp, c, IsConnected(nsp, before)))
         else 0)
  }

  /** An unsigned counter, cast to int. */
  function Signed(ids: nat): int {
    var id := ids % TWO32;
    if id < 0x8000_0000 then id else id - TWO32
  }

  /** The event packets of a list of emissions, from the counter on. */
  function Events(nsp: bytes, ids: nat, es: seq<Emission>): seq<PacketState>
    decreases |es|
  {
    if es == [] then []
    else
      var id := if es[0].ack.Some? then Signed(ids) else -1;
      [PacketState(4, 18, nsp, id, ArrayMessage([StringMessage(es[0].name)] + es[0].msgs), 0, [])]
      + Events(nsp, ids + (if es[0].ack.Some? then 1 else 0), es[1..])
  }

  /** What one call wants sent: the events, the reply to an event that asks for one, and a disconnect packet. */
  function Requests(nsp: bytes, ids: nat, connected: bool, c: Call): seq<PacketState> {
    Events(nsp, ids, Emissions(nsp, c, connected))
    + (if IsEvent(nsp, c) && c.p.packId >= 0 then [PacketState(4, 19, nsp, c.p.packId, ArrayMessage(c.reply), 0, [])]
       else [])
    + (if c == Closes && connected then [PacketState(4, 1, nsp, -1, Absent, 0, [])] else [])
  }

  /** All the packets asked for while the socket was open, in order. */
  function Asked(nsp: bytes, ids: nat, cs: seq<Call>): seq<PacketState>
    decreases |cs|
  {
    if cs == [] then []
    else
      var before := cs[..|cs| - 1];
      Asked(nsp, ids, before)
      + (if IsOpen(nsp, before) then
           Requests(nsp, Drawn(nsp, ids, before), IsConnected(nsp, before), cs[|cs| - 1])
         else [])
  }

  /** How many of them have to be sent by now: all that were asked for when it was last connected. */
  function Sent(nsp: bytes, ids: nat, cs: seq<Call>): (n: nat)
    ensures n <= |Asked(nsp, ids, cs)|
    decreases |cs|
  {
    if cs == [] then 0
    else if IsConnected(nsp, cs) then |Asked(nsp, ids, cs)|
    else Sent(nsp, ids, cs[..|cs| - 1])
  }

  function Greeting(nsp: bytes): seq<PacketState> {
    if nsp == ['/' as int] then [] else [PacketState(4, 0, nsp, -1, Absent, 0, [])]
  }

  /** The packets handed to the client: a connect packet for each time the connection opened, unless the
      namespace is the root, and the packets asked for as soon as the socket is connected. */
  function Wire(nsp: bytes, ids: nat, online: bool, cs: seq<Call>): seq<PacketState>
    decreases |cs|
  {
    if cs == [] then (if online then Greeting(nsp) else [])
    else
      var before := cs[..|cs| - 1];
      Wire(nsp, ids, online, before)
      + (if cs[|cs| - 1] == Opens && IsOpen(nsp, before) then Greeting(nsp) else [])
      + (if IsConnected(nsp, cs) then Asked(nsp, ids, cs)[Sent(nsp, ids, before)..] else [])
  }

  // ---------------------------------------------------------------- one call

  /** From s to s' the packets ps were sent on a connected socket, or queued on one that is not. */
  predicate Sends(s: Sock, s': Sock, ps: seq<PacketState>) {
    && s'.nsp == s.nsp && s'.client == s.client && s'.connected == s.connected && s'.lost == s.lost
    && (if s.connected then s'.wire == s.wire + ps && s'.queue == [] else s'.wire == s.wire && s'.queue == s.queue + ps)
  }

  /** A socket that is open, with nothing queued while it is connected. */
  predicate Ready(s: Sock) {
    s.client && (s.connected ==> s.queue == [])
  }

  lemma SendsOne(s: Sock, p: PacketState)
    requires Ready(s)
    ensures Sends(s, SendPacket(s, p), [p])
  {
    if s.connected {
      assert s.wire + s.queue + [p] == s.wire + [p];
    }
  }

  lemma SendsMore(s: Sock, s1: Sock, s2: Sock, a: seq<PacketState>, b: seq<PacketState>)
    requires Sends(s, s1, a) && Sends(s1, s2, b)
    ensures Sends(s, s2, a + b)
  {
    assert s.wire + a + b == s.wire + (a + b) && s.queue + a + b == s.queue + (a + b);
  }

  lemma EmitSends(s: Sock, e: Emission)
    requires Ready(s)
    ensures Sends(s, Emit(s, e), Events(s.nsp, s.ids, [e])) && Ready(Emit(s, e))
    ensures Emit(s, e).ids == s.ids + Draws([e])
  {
    var id := if e.ack.Some? then Signed(s.ids) else -1;
    var p := PacketState(4, 18, s.nsp, id, ArrayMessage([StringMessage(e.name)] + e.msgs), 0, []);
    assert Events(s.nsp, s.ids, [e]) == [p];
    assert Draws([e]) == if e.ack.Some? then 1 else 0;
    hide Events, Draws, SendPacket, Sends;
    match e.ack
    case None => SendsOne(s, p);
    case Some(f) =>
      var s1 := s.(acks := s.acks[Key(s.ids) := f], ids := s.ids + 1, granted := s.granted + [Grant(Key(s.ids), f)]);
      SendsOne(s1, p);
      KeepsRest(s1, p);
  }

  lemma KeepsRest(s: Sock, p: PacketState)
    ensures SendPacket(s, p).ids == s.ids
  {
  }

  lemma {:induction false} EmitAllSends(s: Sock, es: seq<Emission>)
    requires Ready(s)
    ensures Sends(s, EmitAll(s, es), Events(s.nsp, s.ids, es)) && Ready(EmitAll(s, es))
    ensures EmitAll(s, es).ids == s.ids + Draws(es)
    decreases |es|
  {
    if es == [] {
      assert s.wire + [] == s.wire && s.queue + [] == s.queue;
    } else {
      var s1 := Emit(s, es[0]);
      EventsSplit(s.nsp, s.ids, es);
      EmitSends(s, es[0]);
      hide Emit, Events, Draws;
      EmitAllSends(s1, es[1..]);
      SendsMore(s, s1, EmitAll(s1, es[1..]), Events(s.nsp, s.ids, [es[0]]), Events(s.nsp, s1.ids, es[1..]));
    }
  }

  lemma EventsSplit(nsp: bytes, ids: nat, es: seq<Emission>)
    requires es != []
    ensures Events(nsp, ids, es) == Events(nsp, ids, [es[0]]) + Events(nsp, ids + Draws([es[0]]), es[1..])
    ensures Draws(es) == Draws([es[0]]) + Draws(es[1..])
  {
    assert [es[0]][1..] == [];
    assert Draws([es[0]]) == if es[0].ack.Some? then 1 else 0;
  }

  /** What a call leaves of an open socket. */
  predicate Leaves(s: Sock, c: Call, s': Sock) {
    && s'.nsp == s.nsp
    && (s'.client <==> !Ends(s.nsp, c))
    && (s'.connected <==> !Ends(s.nsp, c) && (Arrives(s.nsp, c, 0) || (s.connected && c != Disconnects)))
    && s'.ids == s.ids + (if c == Elsewhere then 1 else Draws(Emissions(s.nsp, c, s.connected)))
    && var wire, ps := s.wire + (if c == Opens then Greeting(s.nsp) else []), Requests(s.nsp, s.ids, s.connected, c);
       if Ends(s.nsp, c) then ps == [] && s'.wire == wire && s'.queue == [] && s'.lost == s.lost + s.queue
       else if s'.connected then s'.wire == wire + (s.queue + ps) && s'.queue == [] && s'.lost == s.lost
       else s'.wire == wire && s'.queue == s.queue + ps && s'.lost == s.lost
  }

  lemma Sent1(s: Sock, c: Call, s': Sock)
    requires Ready(s) && Sends(s, s', Requests(s.nsp, s.ids, s.connected, c))
    requires s'.ids == s.ids + Draws(Emissions(s.nsp, c, s.connected))
    requires !Ends(s.nsp, c) && c != Opens && c != Elsewhere && c != Disconnects
    requires Arrives(s.nsp, c, 0) ==> s.connected
    ensures Leaves(s, c, s')
  {
    hide Requests, Emissions, Draws, Arrives, Ends;
    var ps := Requests(s.nsp, s.ids, s.connected, c);
    if s.connected {
      assert s.queue + ps == ps && s.wire + [] == s.wire;
    } else {
      assert s.wire + [] == s.wire;
    }
  }

  lemma CallLeaves(s: Sock, c: Call)
    requires Ready(s)
    ensures Leaves(s, c, Do(s, c))
  {
    hide Emit, EmitAll, SendPacket, Sends, Leaves, Greeting;
    match c
    case Emits(e) =>
      EmitSends(s, e);
      var ps := Events(s.nsp, s.ids, [e]);
      hide Events, Draws;
      assert Requests(s.nsp, s.ids, s.connected, c) == ps + [] + [] == ps;
      Sent1(s, c, Emit(s, e));
    case Closes =>
      if s.connected {
        var p := PacketState(4, 1, s.nsp, -1, Absent, 0, []);
        SendsOne(s, p);
        KeepsRest(s, p);
        assert Requests(s.nsp, s.ids, s.connected, c) == [] + [] + [p] == [p];
        Sent1(s, c, Close(s));
      } else {
        Silent(s, c);
      }
    case Receives(_, _, _) => PacketLeaves(s, c);
    case _ => Plain(s, c);
  }

  lemma Silent(s: Sock, c: Call)
    requires Ready(s) && Do(s, c) == s && Requests(s.nsp, s.ids, s.connected, c) == []
    requires Draws(Emissions(s.nsp, c, s.connected)) == 0
    requires !Ends(s.nsp, c) && c != Opens && c != Elsewhere && c != Disconnects
    requires Arrives(s.nsp, c, 0) ==> s.connected
    ensures Leaves(s, c, Do(s, c))
  {
    assert s.wire + [] == s.wire && s.queue + [] == s.queue;
  }

  lemma Plain(s: Sock, c: Call)
    requires Ready(s) && (c.Opens? || c.Disconnects? || c.TimesOut? || c.Elsewhere?)
    ensures Leaves(s, c, Do(s, c))
  {
    assert Requests(s.nsp, s.ids, s.connected, c) == [];
    assert s.queue + [] == s.queue && s.wire + [] == s.wire && s.lost + [] == s.lost;
    if c.Opens? && s.connected {
      assert s.wire + Greeting(s.nsp) + (s.queue + []) == s.wire + Greeting(s.nsp);
    }
  }

  lemma PacketLeaves(s: Sock, c: Call)
    requires Ready(s) && c.Receives?
    ensures Leaves(s, c, Do(s, c))
  {
    hide Emit, EmitAll, SendPacket, Sends, Leaves, Greeting, Connected, OnAck, OnClose, Events, Draws;
    if Arrives(s.nsp, c, 0) && !s.connected {
      ConnectLeaves(s, c);
    } else if Arrives(s.nsp, c, 1) {
      EndLeaves(s, c);
    } else if IsEvent(s.nsp, c) {
      EventLeaves(s, c);
    } else if Arrives(s.nsp, c, 3) || Arrives(s.nsp, c, 6) || Arrives(s.nsp, c, 4) {
      NestedLeaves(s, c);
    } else {
      NothingSent(s.nsp, s.ids);
      Unmoved(s, c);
      assert Emissions(s.nsp, c, s.connected) == [];
      Silent(s, c);
    }
  }

  lemma Unmoved(s: Sock, c: Call)
    requires c.Receives? && (Arrives(s.nsp, c, 0) ==> s.connected)
    requires !IsEvent(s.nsp, c) && !Arrives(s.nsp, c, 1) && !Arrives(s.nsp, c, 3) && !Arrives(s.nsp, c, 4)
    requires !Arrives(s.nsp, c, 6)
    ensures Do(s, c) == s
  {
    hide EmitAll, OnAck, OnClose, Reply;
  }

  lemma NothingSent(nsp: bytes, ids: nat)
    ensures Events(nsp, ids, []) == [] && Draws([]) == 0
  {
  }

  lemma EndLeaves(s: Sock, c: Call)
    requires Ready(s) && Arrives(s.nsp, c, 1)
    ensures Leaves(s, c, Do(s, c))
  {
    hide Greeting;
    assert Requests(s.nsp, s.ids, s.connected, c) == [];
    assert s.wire + [] == s.wire;
  }

  lemma ConnectLeaves(s: Sock, c: Call)
    requires Ready(s) && Arrives(s.nsp, c, 0) && !s.connected
    ensures Leaves(s, c, Do(s, c))
  {
    hide EmitAll, Events, Draws, Greeting;
    var es := Events(s.nsp, s.ids, c.nested);
    EmitAllSends(Flushed(s), c.nested);
    ConnectFlushes(s, c.nested);
    assert Requests(s.nsp, s.ids, false, c) == es + [] + [] == es;
    assert s.wire + s.queue + es == s.wire + [] + (s.queue + es);
  }

  lemma NestedLeaves(s: Sock, c: Call)
    requires Ready(s) && (Arrives(s.nsp, c, 3) || Arrives(s.nsp, c, 6) || Arrives(s.nsp, c, 4))
    ensures Leaves(s, c, Do(s, c))
  {
    var s1 := if Arrives(s.nsp, c, 4) then s else OnAck(s, c.p.packId);
    EmitAllSends(s1, c.nested);
    hide EmitAll, Events, Draws, Greeting, Leaves;
    var es := Events(s.nsp, s.ids, c.nested);
    assert Requests(s.nsp, s.ids, s.connected, c) == es + [] + [] == es;
    Sent1(s, c, EmitAll(s1, c.nested));
  }

  lemma EventLeaves(s: Sock, c: Call)
    requires Ready(s) && IsEvent(s.nsp, c)
    ensures Leaves(s, c, Do(s, c))
  {
    hide EmitAll, Events, Draws, Greeting, Leaves, SendPacket, Sends;
    var es, s1 := Events(s.nsp, s.ids, c.nested), EmitAll(s, c.nested);
    EmitAllSends(s, c.nested);
    if c.p.packId >= 0 {
      var p := PacketState(4, 19, s.nsp, c.p.packId, ArrayMessage(c.reply), 0, []);
      SendsSame(s, s1, es);
      SendsOne(s1, p);
      KeepsRest(s1, p);
      SendsMore(s, s1, SendPacket(s1, p), es, [p]);
      assert Requests(s.nsp, s.ids, s.connected, c) == es + [p] + [] == es + [p];
      Sent1(s, c, SendPacket(s1, p));
    } else {
      assert Requests(s.nsp, s.ids, s.connected, c) == es + [] + [] == es;
      Sent1(s, c, s1);
    }
  }

  lemma SendsSame(s: Sock, s': Sock, ps: seq<PacketState>)
    requires Sends(s, s', ps)
    ensures s'.nsp == s.nsp
  {
  }

  // ---------------------------------------------------------------- runs

  lemma {:induction false} RunMore(s: Sock, cs: seq<Call>, c: Call)
    ensures Run(s, cs + [c]) == Do(Run(s, cs), c)
    decreases |cs|
  {
    hide Do;
    if cs == [] {
      assert ([] + [c])[1..] == [] && ([] + [c])[0] == c;
    } else {
      assert (cs + [c])[0] == cs[0] && (cs + [c])[1..] == cs[1..] + [c];
      RunMore(Do(s, cs[0]), cs[1..], c);
    }
  }

  /** s is what the calls say. */
  predicate Follows(s: Sock, nsp: bytes, ids: nat, online: bool, cs: seq<Call>) {
    && s.nsp == nsp && s.client == IsOpen(nsp, cs) && s.connected == IsConnected(nsp, cs)
    && s.ids == Drawn(nsp, ids, cs)
    && s.wire == Wire(nsp, ids, online, cs)
    && s.queue + s.lost == Asked(nsp, ids, cs)[Sent(nsp, ids, cs)..]
    && (s.client ==> s.lost == []) && (!s.client || s.connected ==> s.queue == [])
  }

  lemma {:induction false} RunFollows(nsp: bytes, ids: nat, online: bool, cs: seq<Call>)
    ensures Follows(Run(Born(nsp, ids, online), cs), nsp, ids, online, cs)
    decreases |cs|
  {
    if cs == [] {
      Starts(nsp, ids, online);
    } else {
      var before, c := cs[..|cs| - 1], cs[|cs| - 1];
      assert cs == before + [c];
      RunFollows(nsp, ids, online, before);
      hide Do, Run, Follows;
      RunMore(Born(nsp, ids, online), before, c);
      CallFollows(Run(Born(nsp, ids, online), before), nsp, ids, online, before, c);
    }
  }

  lemma Starts(nsp: bytes, ids: nat, online: bool)
    ensures Follows(Born(nsp, ids, online), nsp, ids, online, [])
  {
    assert [] + Greeting(nsp) == Greeting(nsp);
  }

  lemma CallFollows(s: Sock, nsp: bytes, ids: nat, online: bool, cs: seq<Call>, c: Call)
    requires Follows(s, nsp, ids, online, cs)
    ensures Follows(Do(s, c), nsp, ids, online, cs + [c])
  {
    var more := cs + [c];
    assert more[..|more| - 1] == cs && more[|more| - 1] == c;
    OpenMore(nsp, cs, c);
    ConnectedMore(nsp, cs, c);
    if s.client {
      CallLeaves(s, c);
      OpenFollows(s, Do(s, c), nsp, ids, online, cs, c);
    } else {
      DoInert(s, c);
      ClosedFollows(s, nsp, ids, online, cs, c);
    }
  }

  lemma AskedMore(nsp: bytes, ids: nat, cs: seq<Call>, c: Call)
    ensures Asked(nsp, ids, cs + [c])
         == Asked(nsp, ids, cs)
            + (if IsOpen(nsp, cs) then Requests(nsp, Drawn(nsp, ids, cs), IsConnected(nsp, cs), c) else [])
  {
    hide Requests, Drawn, IsConnected, IsOpen;
    assert (cs + [c])[..|cs + [c]| - 1] == cs && (cs + [c])[|cs + [c]| - 1] == c;
  }

  lemma DrawnMore(nsp: bytes, ids: nat, cs: seq<Call>, c: Call)
    ensures Drawn(nsp, ids, cs + [c])
         == Drawn(nsp, ids, cs)
            + (if c == Elsewhere then 1
               else if IsOpen(nsp, cs) then Draws(Emissions(nsp, c, IsConnected(nsp, cs)))
               else 0)
  {
    hide Draws, Emissions, IsConnected, IsOpen;
    assert (cs + [c])[..|cs + [c]| - 1] == cs && (cs + [c])[|cs + [c]| - 1] == c;
  }

  lemma SentMore(nsp: bytes, ids: nat, cs: seq<Call>, c: Call)
    ensures Sent(nsp, ids, cs + [c])
         == if IsConnected(nsp, cs + [c]) then |Asked(nsp, ids, cs + [c])| else Sent(nsp, ids, cs)
  {
    hide Asked, IsConnected;
    assert (cs + [c])[..|cs + [c]| - 1] == cs;
  }

  lemma WireMore(nsp: bytes, ids: nat, online: bool, cs: seq<Call>, c: Call)
    ensures Sent(nsp, ids, cs) <= |Asked(nsp, ids, cs + [c])|
    ensures Wire(nsp, ids, online, cs + [c])
         == Wire(nsp, ids, online, cs) + (if c == Opens && IsOpen(nsp, cs) then Greeting(nsp) else [])
            + (if IsConnected(nsp, cs + [c]) then Asked(nsp, ids, cs + [c])[Sent(nsp, ids, cs)..] else [])
  {
    AskedMore(nsp, ids, cs, c);
    hide Asked, Sent, IsConnected, IsOpen, Greeting, Requests;
    assert (cs + [c])[..|cs + [c]| - 1] == cs && (cs + [c])[|cs + [c]| - 1] == c;
  }

  lemma OpenFollows(s: Sock, s': Sock, nsp: bytes, ids: nat, online: bool, cs: seq<Call>, c: Call)
    requires Follows(s, nsp, ids, online, cs) && s.client && Leaves(s, c, s')
    requires IsOpen(nsp, cs + [c]) <==> !Ends(nsp, c)
    requires IsConnected(nsp, cs + [c])
        <==> !Ends(nsp, c) && (Arrives(nsp, c, 0) || (s.connected && c != Disconnects))
    ensures Follows(s', nsp, ids, online, cs + [c])
  {
    AskedMore(nsp, ids, cs, c);
    DrawnMore(nsp, ids, cs, c);
    SentMore(nsp, ids, cs, c);
    WireMore(nsp, ids, online, cs, c);
    hide Requests, Greeting, Emissions, Draws, Ends, Arrives, IsOpen, IsConnected, Drawn, Asked, Sent, Wire;
    var before, sent, ps := Asked(nsp, ids, cs), Sent(nsp, ids, cs), Requests(nsp, s.ids, s.connected, c);
    assert s.queue + [] == s.queue == before[sent..];
    assert (before + ps)[sent..] == s.queue + ps;
    if s'.connected {
      assert (before + ps)[|before + ps|..] == [] + [];
    } else {
      assert s.wire + (if c == Opens then Greeting(nsp) else []) + [] == s'.wire;
      assert s'.queue + s'.lost == s.queue + ps;
    }
  }

  lemma ClosedFollows(s: Sock, nsp: bytes, ids: nat, online: bool, cs: seq<Call>, c: Call)
    requires Follows(s, nsp, ids, online, cs) && !s.client
    requires !IsOpen(nsp, cs + [c])
    ensures Follows(s.(ids := if c == Elsewhere then s.ids + 1 else s.ids), nsp, ids, online, cs + [c])
  {
    assert !IsConnected(nsp, cs + [c]);
    AskedMore(nsp, ids, cs, c);
    DrawnMore(nsp, ids, cs, c);
    SentMore(nsp, ids, cs, c);
    WireMore(nsp, ids, online, cs, c);
    hide IsOpen, IsConnected, Requests, Greeting, Emissions, Draws, Drawn, Asked, Sent, Wire;
    assert Asked(nsp, ids, cs) + [] == Asked(nsp, ids, cs) && s.wire + [] + [] == s.wire;
  }

  /** In every run of serialised calls: the socket is open and connected when the calls say so; the client was
      handed exactly the packets the calls ask for up to when it was last connected, with the connect packets; the
      rest waits in the queue, in order, and is dropped only when the socket is closed. */
  lemma CallsObeyed(nsp: bytes, ids: nat, online: bool, cs: seq<Call>)
    ensures var s, asked, sent := Run(Born(nsp, ids, online), cs), Asked(nsp, ids, cs), Sent(nsp, ids, cs);
            && s.client == IsOpen(nsp, cs) && s.connected == IsConnected(nsp, cs)
            && s.wire == Wire(nsp, ids, online, cs)
            && s.queue == (if IsOpen(nsp, cs) then asked[sent..] else [])
            && s.lost == (if IsOpen(nsp, cs) then [] else asked[sent..])
  {
    RunFollows(nsp, ids, online, cs);
    hide Run, IsOpen, IsConnected, Asked, Sent, Wire, Drawn;
    var s := Run(Born(nsp, ids, online), cs);
    assert s.queue + [] == s.queue && [] + s.lost == s.lost;
  }

  lemma RequestsPlain(nsp: bytes, ids: nat, connected: bool, c: Call)
    ensures NoConnect(Requests(nsp, ids, connected, c))
  {
    EventsPlain(nsp, ids, Emissions(nsp, c, connected));
  }

  lemma {:induction false} EventsPlain(nsp: bytes, ids: nat, es: seq<Emission>)
    ensures NoConnect(Events(nsp, ids, es))
    decreases |es|
  {
    if es != [] {
      EventsPlain(nsp, ids + (if es[0].ack.Some? then 1 else 0), es[1..]);
    }
  }

  lemma {:induction false} AskedPlain(nsp: bytes, ids: nat, cs: seq<Call>)
    ensures NoConnect(Asked(nsp, ids, cs))
    decreases |cs|
  {
    hide Requests, Drawn, IsConnected, IsOpen;
    if cs != [] {
      var before := cs[..|cs| - 1];
      AskedPlain(nsp, ids, before);
      RequestsPlain(nsp, Drawn(nsp, ids, before), IsConnected(nsp, before), cs[|cs| - 1]);
    }
  }

  lemma GreetingData(nsp: bytes)
    ensures Data(Greeting(nsp)) == [] && Data([]) == []
  {
  }

  /** The connect packets aside, what is on the wire is what was asked for, up to when the socket was last connected. */
  lemma {:induction false} WireIsAsked(nsp: bytes, ids: nat, online: bool, cs: seq<Call>)
    ensures Data(Wire(nsp, ids, online, cs)) == Asked(nsp, ids, cs)[..Sent(nsp, ids, cs)]
    decreases |cs|
  {
    GreetingData(nsp);
    if cs != [] {
      var before, c := cs[..|cs| - 1], cs[|cs| - 1];
      assert cs == before + [c];
      WireIsAsked(nsp, ids, online, before);
      AskedPlain(nsp, ids, cs);
      AskedMore(nsp, ids, before, c);
      SentMore(nsp, ids, before, c);
      WireMore(nsp, ids, online, before, c);
      hide Data, Wire, Asked, Sent, Greeting, IsOpen, IsConnected, Requests, NoConnect;
      PrefixGrows(Wire(nsp, ids, online, before), if c == Opens && IsOpen(nsp, before) then Greeting(nsp) else [],
                  Asked(nsp, ids, before), Asked(nsp, ids, cs)[|Asked(nsp, ids, before)|..], Sent(nsp, ids, before),
                  IsConnected(nsp, cs));
    }
  }

  lemma PrefixGrows(w: seq<PacketState>, greeting: seq<PacketState>, asked: seq<PacketState>, ps: seq<PacketState>,
                    sent: nat, connected: bool)
    requires sent <= |asked| && Data(w) == asked[..sent] && Data(greeting) == [] && NoConnect(asked + ps)
    ensures Data(w + greeting + (if connected then (asked + ps)[sent..] else []))
         == (asked + ps)[..if connected then |asked + ps| else sent]
  {
    var all := asked + ps;
    PlainData(all, sent);
    DataConcat(w, greeting);
    assert all[..sent] == asked[..sent];
    if connected {
      hide Data, NoConnect;
      DataConcat(w + greeting, all[sent..]);
      assert all[..sent] + [] + all[sent..] == all == all[..|all|];
    } else {
      assert w + greeting + [] == w + greeting && Data(w) + [] == Data(w);
    }
  }

  lemma PlainData(ps: seq<PacketState>, n: nat)
    requires NoConnect(ps) && n <= |ps|
    ensures Data(ps[n..]) == ps[n..]
  {
  }

  /** Nothing that was asked for is ever missing: it is on the wire, or queued, or dropped by a close, in order. */
  lemma NothingForgotten(nsp: bytes, ids: nat, online: bool, cs: seq<Call>)
    ensures var s := Run(Born(nsp, ids, online), cs);
            Data(s.wire) + s.queue + s.lost == Asked(nsp, ids, cs)
  {
    CallsObeyed(nsp, ids, online, cs);
    WireIsAsked(nsp, ids, online, cs);
    hide Run, Asked, Sent, Wire, Data;
    var s, asked, sent := Run(Born(nsp, ids, online), cs), Asked(nsp, ids, cs), Sent(nsp, ids, cs);
    assert asked[..sent] + asked[sent..] == asked;
    assert Data(s.wire) + asked[sent..] + [] == asked && Data(s.wire) + [] + asked[sent..] == asked;
  }
}
