/** Which ack callbacks a socket's calls want called, read off the calls alone: each emission with a callback leaves
    one to be called, and the ack packet with its id calls it, once. */
module SioSocketAcks {
  import opened Bytes
  import opened Options
  import opened SioSocket
  import opened SioSocketCalls

  /** The callbacks that a list of emissions leaves, each under the id its packet carries. */
  function GrantsOf(ids: nat, es: seq<Emission>): seq<Grant>
    decreases |es|
  {
    if es == [] then []
    else if es[0].ack.None? then GrantsOf(ids, es[1..])
    else [Grant(ids % SioSocketCalls.TWO32, es[0].ack.value)] + GrantsOf(ids + 1, es[1..])
  }

  /** All the callbacks left while the socket was open. */
  function Grants(nsp: bytes, ids: nat, cs: seq<Call>): seq<Grant>
    decreases |cs|
  {
    if cs == [] then []
    else
      var before := cs[..|cs| - 1];
      Grants(nsp, ids, before)
      + (if IsOpen(nsp, before) then
           GrantsOf(Drawn(nsp, ids, before), Emissions(nsp, cs[|cs| - 1], IsConnected(nsp, before)))
         else [])
  }

  /** The callback left under an id and not yet called. */
  function Waiting(gs: seq<Grant>, called: seq<Grant>, id: int): Option<Grant>
    decreases |gs|
  {
    if gs == [] then None
    else
      var g := gs[|gs| - 1];
      if g.id == id && g !in called then Some(g) else Waiting(gs[..|gs| - 1], called, id)
  }

  predicate IsAck(nsp: bytes, c: Call) {
    Arrives(nsp, c, 3) || Arrives(nsp, c, 6)
  }

  /** The callbacks called, in order: an ack packet for an open socket calls the one that waits under its id. */
  function Called(nsp: bytes, ids: nat, cs: seq<Call>): seq<Grant>
    decreases |cs|
  {
    if cs == [] then []
    else
      var before, c := cs[..|cs| - 1], cs[|cs| - 1];
      var called := Called(nsp, ids, before);
      if IsAck(nsp, c) && IsOpen(nsp, before) then
        match Waiting(Grants(nsp, ids, before), called, c.p.packId % SioSocketCalls.TWO32)
        case None => called
        case Some(g) => called + [g]
      else called
  }

  // ---------------------------------------------------------------- registered and waiting

  /** What was granted has been called or is registered. */
  predicate Pending(s: Sock) {
    forall g | g in s.granted :: g in s.fired || (g.id in s.acks && s.acks[g.id] == g.callback)
  }

  predicate Kept(s: Sock) {
    Accounted(s) && Pending(s)
  }

  lemma EmitKept(s: Sock, e: Emission)
    requires Kept(s) && s.client && Emit(s, e).ids <= SioSocketCalls.TWO32
    ensures Kept(Emit(s, e)) && Emit(s, e).client
    ensures Emit(s, e).granted == s.granted + GrantsOf(s.ids, [e]) && Emit(s, e).fired == s.fired
  {
    EmitAccounted(s, e);
    assert GrantsOf(s.ids, [e]) == if e.ack.None? then [] else [Grant(s.ids % SioSocketCalls.TWO32, e.ack.value)];
    hide Accounted;
    if e.ack.Some? {
      var s', g := Emit(s, e), Grant(s.ids, e.ack.value);
      assert s'.granted == s.granted + [g] && s'.acks == s.acks[s.ids := e.ack.value];
      FreshId(s);
    } else {
      assert s.granted + [] == s.granted;
    }
  }

  /** An id that is drawn now is not registered. */
  lemma FreshId(s: Sock)
    requires Accounted(s)
    ensures s.ids !in s.acks && forall g | g in s.granted :: g.id != s.ids
  {
    forall id | id in s.acks ensures id != s.ids {
      assert Grant(id, s.acks[id]) in s.granted;
    }
  }

  lemma {:induction false} EmitAllKept(s: Sock, es: seq<Emission>)
    requires Kept(s) && s.client && EmitAll(s, es).ids <= SioSocketCalls.TWO32
    ensures Kept(EmitAll(s, es))
    ensures EmitAll(s, es).granted == s.granted + GrantsOf(s.ids, es) && EmitAll(s, es).fired == s.fired
    decreases |es|
  {
    hide Emit, Kept, GrantsOf, EmitAll;
    if es == [] {
      EmitNone(s);
    } else {
      EmitFirst(s, es);
      GrantsSplit(s.ids, es);
      var s1 := Emit(s, es[0]);
      OneId(s, es[0]);
      IdsGrow(s1, es[1..]);
      EmitKept(s, es[0]);
      EmitAllKept(s1, es[1..]);
      var a, b := GrantsOf(s.ids, [es[0]]), GrantsOf(s1.ids, es[1..]);
      assert s.granted + a + b == s.granted + (a + b);
    }
  }

  lemma EmitNone(s: Sock)
    ensures EmitAll(s, []) == s && s.granted + GrantsOf(s.ids, []) == s.granted
  {
  }

  lemma EmitFirst(s: Sock, es: seq<Emission>)
    requires es != []
    ensures EmitAll(s, es) == EmitAll(Emit(s, es[0]), es[1..])
  {
    hide Emit;
  }

  lemma GrantsSplit(ids: nat, es: seq<Emission>)
    requires es != []
    ensures GrantsOf(ids, es)
         == GrantsOf(ids, [es[0]]) + GrantsOf(ids + (if es[0].ack.Some? then 1 else 0), es[1..])
  {
    assert [es[0]][1..] == [];
  }

  lemma OneId(s: Sock, e: Emission)
    requires s.client
    ensures Emit(s, e).ids == s.ids + (if e.ack.Some? then 1 else 0)
  {
  }

  lemma KeptAlike(s: Sock, s': Sock)
    requires Kept(s) && s'.acks == s.acks && s'.ids >= s.ids && s'.granted == s.granted && s'.fired == s.fired
    ensures Kept(s')
  {
    SentAccounted(s, s');
    hide Accounted;
  }

  // ---------------------------------------------------------------- an ack packet

  lemma {:induction false} WaitingIs(gs: seq<Grant>, called: seq<Grant>, id: int)
    ensures match Waiting(gs, called, id)
            case Some(g) => g in gs && g.id == id && g !in called
            case None => forall g | g in gs :: g.id == id ==> g in called
    decreases |gs|
  {
    if gs != [] {
      WaitingIs(gs[..|gs| - 1], called, id);
      assert gs == gs[..|gs| - 1] + [gs[|gs| - 1]];
    }
  }

  lemma SameGrant(gs: seq<Grant>, g: Grant, g': Grant)
    requires DistinctIds(gs) && g in gs && g' in gs && g.id == g'.id
    ensures g == g'
  {
    var i :| 0 <= i < |gs| && gs[i] == g;
    var j :| 0 <= j < |gs| && gs[j] == g';
    assert i == j;
  }

  lemma AckCalls(s: Sock, msgId: int)
    requires Kept(s)
    ensures Kept(OnAck(s, msgId))
    ensures OnAck(s, msgId).granted == s.granted && OnAck(s, msgId).ids == s.ids && OnAck(s, msgId).client == s.client
    ensures OnAck(s, msgId).fired
         == match Waiting(s.granted, s.fired, msgId % SioSocketCalls.TWO32)
            case None => s.fired
            case Some(g) => s.fired + [g]
  {
    var id := msgId % SioSocketCalls.TWO32;
    AckAccounted(s, msgId);
    WaitingIs(s.granted, s.fired, id);
    var w := Waiting(s.granted, s.fired, id);
    if id in s.acks {
      var g := Grant(id, s.acks[id]);
      assert g in s.granted && g !in s.fired;
      SameGrant(s.granted, g, w.value);
      PendingAfter(s, id);
    }
  }

  lemma PendingAfter(s: Sock, id: int)
    requires Kept(s) && id in s.acks
    ensures Pending(s.(acks := s.acks - {id}, fired := s.fired + [Grant(id, s.acks[id])]))
  {
  }

  // ---------------------------------------------------------------- one call

  function CalledNow(s: Sock, c: Call): seq<Grant> {
    if IsAck(s.nsp, c) then
      match Waiting(s.granted, s.fired, c.p.packId % SioSocketCalls.TWO32)
      case None => s.fired
      case Some(g) => s.fired + [g]
    else s.fired
  }

  /** What a call on an open socket adds to the callbacks left and to those called. */
  predicate Answers(s: Sock, c: Call, s': Sock) {
    && Kept(s')
    && s'.granted == s.granted + GrantsOf(s.ids, Emissions(s.nsp, c, s.connected))
    && s'.fired == CalledNow(s, c)
  }

  lemma Unanswered(s: Sock, c: Call, s': Sock)
    requires Kept(s) && !IsAck(s.nsp, c) && Emissions(s.nsp, c, s.connected) == []
    requires s'.acks == s.acks && s'.ids >= s.ids && s'.granted == s.granted && s'.fired == s.fired
    ensures Answers(s, c, s')
  {
    KeptAlike(s, s');
    assert s.granted + [] == s.granted;
  }

  lemma CallAnswers(s: Sock, c: Call)
    requires s.client && Kept(s) && Do(s, c).ids <= SioSocketCalls.TWO32
    ensures Answers(s, c, Do(s, c))
  {
    hide Kept, GrantsOf, EmitAll, Emit, OnAck;
    match c
    case Emits(e) => EmitKept(s, e);
    case Receives(_, _, _) => PacketAnswers(s, c);
    case _ => Unanswered(s, c, Do(s, c));
  }

  lemma PacketAnswers(s: Sock, c: Call)
    requires s.client && Kept(s) && c.Receives? && Do(s, c).ids <= SioSocketCalls.TWO32
    ensures Answers(s, c, Do(s, c))
  {
    hide Kept, GrantsOf, EmitAll, OnAck, Accounted, Answers;
    if Arrives(s.nsp, c, 0) && !s.connected {
      ConnectAnswers(s, c);
    } else if IsEvent(s.nsp, c) {
      EventAnswers(s, c);
    } else if IsAck(s.nsp, c) {
      AckAnswers(s, c);
    } else if Arrives(s.nsp, c, 4) {
      ErrorAnswers(s, c);
    } else {
      Unanswered(s, c, Do(s, c));
    }
  }

  lemma ConnectAnswers(s: Sock, c: Call)
    requires s.client && Kept(s) && Arrives(s.nsp, c, 0) && !s.connected && Do(s, c).ids <= SioSocketCalls.TWO32
    ensures Answers(s, c, Do(s, c))
  {
    hide Kept, GrantsOf, EmitAll;
    var s1 := s.(connected := true);
    KeptAlike(s, s1);
    EmitAllKept(s1, c.nested);
    KeptAlike(EmitAll(s1, c.nested), Do(s, c));
  }

  lemma EventAnswers(s: Sock, c: Call)
    requires s.client && Kept(s) && IsEvent(s.nsp, c) && Do(s, c).ids <= SioSocketCalls.TWO32
    ensures Answers(s, c, Do(s, c))
  {
    hide Kept, GrantsOf, EmitAll;
    EmitAllKept(s, c.nested);
    KeptAlike(EmitAll(s, c.nested), Do(s, c));
  }

  lemma AckAnswers(s: Sock, c: Call)
    requires s.client && Kept(s) && IsAck(s.nsp, c) && Do(s, c).ids <= SioSocketCalls.TWO32
    ensures Answers(s, c, Do(s, c))
  {
    hide Kept, GrantsOf, EmitAll, OnAck;
    AckCalls(s, c.p.packId);
    EmitAllKept(OnAck(s, c.p.packId), c.nested);
  }

  lemma ErrorAnswers(s: Sock, c: Call)
    requires s.client && Kept(s) && Arrives(s.nsp, c, 4) && Do(s, c).ids <= SioSocketCalls.TWO32
    ensures Answers(s, c, Do(s, c))
  {
    hide Kept, GrantsOf, EmitAll;
    EmitAllKept(s, c.nested);
  }

  // ---------------------------------------------------------------- runs

  lemma RunState(nsp: bytes, ids: nat, online: bool, cs: seq<Call>)
    ensures var s := Run(Born(nsp, ids, online), cs);
            && s.nsp == nsp && s.client == IsOpen(nsp, cs) && s.connected == IsConnected(nsp, cs)
            && s.ids == Drawn(nsp, ids, cs)
  {
    RunFollows(nsp, ids, online, cs);
  }

  lemma GrantsMore(nsp: bytes, ids: nat, cs: seq<Call>, c: Call)
    ensures Grants(nsp, ids, cs + [c])
         == Grants(nsp, ids, cs)
            + (if IsOpen(nsp, cs) then GrantsOf(Drawn(nsp, ids, cs), Emissions(nsp, c, IsConnected(nsp, cs))) else [])
  {
    hide GrantsOf, Drawn, Emissions, IsConnected, IsOpen;
    assert (cs + [c])[..|cs + [c]| - 1] == cs && (cs + [c])[|cs + [c]| - 1] == c;
  }

  lemma CalledMore(nsp: bytes, ids: nat, cs: seq<Call>, c: Call)
    ensures Called(nsp, ids, cs + [c])
         == if IsAck(nsp, c) && IsOpen(nsp, cs) then
              match Waiting(Grants(nsp, ids, cs), Called(nsp, ids, cs), c.p.packId % SioSocketCalls.TWO32)
              case None => Called(nsp, ids, cs)
              case Some(g) => Called(nsp, ids, cs) + [g]
            else Called(nsp, ids, cs)
  {
    hide Grants, Waiting, IsAck, IsOpen;
    assert (cs + [c])[..|cs + [c]| - 1] == cs && (cs + [c])[|cs + [c]| - 1] == c;
  }

  /** s owes and has called what the calls say. */
  predicate Owes(s: Sock, nsp: bytes, ids: nat, cs: seq<Call>) {
    Kept(s) && s.granted == Grants(nsp, ids, cs) && s.fired == Called(nsp, ids, cs)
  }

  lemma {:induction false} RunAnswers(nsp: bytes, ids: nat, online: bool, cs: seq<Call>)
    requires Drawn(nsp, ids, cs) <= SioSocketCalls.TWO32
    ensures Owes(Run(Born(nsp, ids, online), cs), nsp, ids, cs)
    decreases |cs|
  {
    if cs != [] {
      var before, c := cs[..|cs| - 1], cs[|cs| - 1];
      assert cs == before + [c];
      hide Do, Run, IsOpen, IsConnected, Owes;
      RunMore(Born(nsp, ids, online), before, c);
      RunAnswers(nsp, ids, online, before);
      hide Drawn;
      RunState(nsp, ids, online, before);
      RunState(nsp, ids, online, cs);
      OneMore(Run(Born(nsp, ids, online), before), nsp, ids, before, c);
    }
  }

  lemma OneMore(s: Sock, nsp: bytes, ids: nat, cs: seq<Call>, c: Call)
    requires Owes(s, nsp, ids, cs) && Do(s, c).ids <= SioSocketCalls.TWO32
    requires s.nsp == nsp && s.client == IsOpen(nsp, cs) && s.connected == IsConnected(nsp, cs)
    requires s.ids == Drawn(nsp, ids, cs)
    ensures Owes(Do(s, c), nsp, ids, cs + [c])
  {
    hide Do, IsOpen, IsConnected, Kept, GrantsOf, Emissions, Waiting, IsAck, Grants, Called, Drawn;
    GrantsMore(nsp, ids, cs, c);
    CalledMore(nsp, ids, cs, c);
    if s.client {
      CallAnswers(s, c);
    } else {
      ClosedAnswers(s, c);
    }
  }

  lemma ClosedAnswers(s: Sock, c: Call)
    requires !s.client && Kept(s)
    ensures Kept(Do(s, c)) && Do(s, c).granted == s.granted + [] && Do(s, c).fired == s.fired
  {
    DoInert(s, c);
    DoIdsGrow(s, c);
    KeptAlike(s, Do(s, c));
    hide Do, Kept;
  }

  /** In every run in which the ids do not wrap, exactly the callbacks that the calls ask for are called, in order:
      each emission's own, by the ack packet that carries its id. */
  lemma AcksObeyed(nsp: bytes, ids: nat, online: bool, cs: seq<Call>)
    requires Drawn(nsp, ids, cs) <= SioSocketCalls.TWO32
    ensures Run(Born(nsp, ids, online), cs).fired == Called(nsp, ids, cs)
  {
    RunAnswers(nsp, ids, online, cs);
  }
}
