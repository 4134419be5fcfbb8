/** The packet manager: payloads in, whole packets out, whatever arrives between a header and its
    attachments. */
module SioManager {
  import opened Bytes
  import opened JsonText
  import opened Options
  import opened SioMessage
  import opened SioPacket

  predicate IsText(t: bytes) {
    t != [] && t[0] == ZERO + MESSAGE_FRAME
  }

  predicate IsAttachment(t: bytes) {
    t != [] && t[0] == FRAME_MESSAGE
  }

  /** What put_payload leaves: the partial packet, and the packet handed to the decode callback. */
  datatype Reaction = Reaction(partial: Option<PacketState>, delivered: Option<PacketState>, failed: bool)

  /** A partial packet always holds its JSON text. */
  predicate Holding(partial: Option<PacketState>) {
    partial.Some? ==> partial.value.buffers != []
  }

  function PutPayload(partial: Option<PacketState>, t: bytes): (r: Reaction)
    requires Holding(partial)
    ensures Holding(r.partial)
  {
    if IsText(t) then
      match Parse(t, FRESH)
      case More(p) => Reaction(Some(p), None, false)
      case Ready(p) => Reaction(partial, Some(p), false)
      case Failed => Reaction(partial, None, true)
    else if IsAttachment(t) then
      if partial.None? then Reaction(None, None, false)
      else
        match ParseBuffer(t, partial.value)
        case More(p) => Reaction(Some(p), None, false)
        case Ready(p) => Reaction(None, Some(p), false)
        case Failed => Reaction(None, None, true)
    else
      match Parse(t, FRESH)
      case Failed => Reaction(partial, None, true)
      case other => Reaction(partial, Some(other.p), false)
  }

  // ---------------------------------------------------------------- runs

  /** What a run of payloads leaves and delivers. */
  datatype Result = Result(partial: Option<PacketState>, delivered: seq<PacketState>)

  function Listed(d: Option<PacketState>): seq<PacketState> {
    if d.Some? then [d.value] else []
  }

  function Run(partial: Option<PacketState>, ts: seq<bytes>): (r: Result)
    requires Holding(partial)
    ensures Holding(r.partial)
    decreases |ts|
  {
    if ts == [] then Result(partial, [])
    else
      var r := PutPayload(partial, ts[0]);
      var rest := Run(r.partial, ts[1..]);
      Result(rest.partial, Listed(r.delivered) + rest.delivered)
  }

  lemma {:induction false} RunConcat(partial: Option<PacketState>, a: seq<bytes>, b: seq<bytes>)
    requires Holding(partial)
    ensures Run(partial, a + b)
         == Result(Run(Run(partial, a).partial, b).partial,
                   Run(partial, a).delivered + Run(Run(partial, a).partial, b).delivered)
    decreases |a|
  {
    hide PutPayload;
    if a == [] {
      assert a + b == b;
    } else {
      assert (a + b)[0] == a[0] && (a + b)[1..] == a[1..] + b;
      RunConcat(PutPayload(partial, a[0]).partial, a[1..], b);
    }
  }

  /** The payloads of a packet, in the order they are encoded. */
  function Payloads(p: PacketState): seq<bytes>
    requires Acceptable(p)
  {
    if p.frame == MESSAGE_FRAME then [Header(p)] + Frames(Attachments(p.message)) else [[ZERO + p.frame]]
  }

  function AllPayloads(ps: seq<PacketState>): seq<bytes>
    requires forall i | 0 <= i < |ps| :: Packable(ps[i])
  {
    if ps == [] then []
    else
      assert Packable(ps[0]);
      Payloads(ps[0]) + AllPayloads(ps[1..])
  }

  /** A header waiting for its attachments gets them. */
  lemma {:induction false} Reassembled(q: PacketState, atts: seq<bytes>)
    requires q.buffers != [] && q.pending == |atts| > 0
    ensures Run(Some(q), Frames(atts))
         == match FromJson(Document(q.buffers[0]), q.buffers[1..] + atts)
            case None => Result(None, [])
            case Some(m) => Result(None, [q.(pending := 0, buffers := [], message := m)])
    decreases |atts|
  {
    hide FromJson, Document;
    var t := Frames(atts)[0];
    assert t[1..] == atts[0];
    assert Frames(atts)[1..] == Frames(atts[1..]);
    assert IsAttachment(t) && !IsText(t);
    var q' := q.(buffers := q.buffers + [atts[0]], pending := q.pending - 1);
    assert q'.buffers[1..] + atts[1..] == q.buffers[1..] + atts;
    assert Run(Some(q), Frames(atts)) == Run(PutPayload(Some(q), t).partial, Frames(atts[1..])).(
      delivered := Listed(PutPayload(Some(q), t).delivered)
      + Run(PutPayload(Some(q), t).partial, Frames(atts[1..])).delivered);
    if |atts| > 1 {
      Reassembled(q', atts[1..]);
    } else {
      assert q'.buffers[1..] == q.buffers[1..] + atts;
    }
  }

  lemma TextHeader(p: PacketState)
    requires Packable(p)
    ensures IsText(Header(p))
  {
    hide CountThen, NspThen, IdThen, Body;
  }

  lemma FirstPayload(p: PacketState)
    requires Packable(p)
    ensures var r := PutPayload(None, Header(p)); var rest := Run(r.partial, Frames(Attachments(p.message)));
            Run(None, Payloads(p)) == Result(rest.partial, Listed(r.delivered) + rest.delivered)
  {
    hide PutPayload, Header, Frames;
    assert Payloads(p)[1..] == Frames(Attachments(p.message));
  }

  /** Without attachments, parse alone decides. */
  lemma PlainReturns(p: PacketState)
    requires Packable(p) && Attachments(p.message) == []
    ensures Run(None, Payloads(p)) == Result(None, [Received(p)]) <==> Returns(p)
  {
    hide FromJson, Header, Parse, Clean, Sendable, DoubleFree, ParseBuffer, Dom, Payloads, Document, Run, Framed,
         WireKind, Attachments;
    TextHeader(p);
    HeaderParsed(p);
    Sending(p);
    FirstPayload(p);
    var first := PutPayload(None, Header(p));
    RunNothing(first.partial);
    assert Listed(first.delivered) + [] == Listed(first.delivered);
    if first.delivered.Some? {
      var x := first.delivered.value;
      assert [x] == [Received(p)] <==> [x][0] == Received(p);
    }
  }

  /** With attachments, the last of them does. */
  lemma BinaryReturns(p: PacketState)
    requires Packable(p) && Attachments(p.message) != []
    ensures Run(None, Payloads(p)) == Result(None, [Received(p)]) <==> Returns(p)
  {
    hide FromJson, Header, Parse, Clean, Sendable, DoubleFree, ParseBuffer, Dom, Payloads, Document, Run, Framed,
         WireKind, Attachments, Frames;
    var atts := Attachments(p.message);
    TextHeader(p);
    HeaderParsed(p);
    Sending(p);
    FirstPayload(p);
    var first := PutPayload(None, Header(p));
    Reassembled(first.partial.value, atts);
    assert [SioPacket.Body(p.message)][1..] + atts == atts;
    var r := FromJson(Dom(p.message, 0), atts);
    if r.Some? {
      var x := Received(p).(message := r.value);
      assert [] + [x] == [x];
      assert [x] == [Received(p)] <==> [x][0] == Received(p);
    }
  }

  /** An encoded packet comes back whole exactly when parse can find its message and no object of it
      looks like a placeholder; a packet without a message, exactly when it has no id. */
  lemma PacketReturns(p: PacketState)
    requires Packable(p)
    ensures Run(None, Payloads(p)) == Result(None, [Received(p)]) <==> Returns(p)
  {
    hide Run, Payloads, Returns, Packable, Received, Attachments;
    if Attachments(p.message) == [] {
      PlainReturns(p);
    } else {
      BinaryReturns(p);
    }
  }

  /** Every packet whose message is a number, a bool or null, or that has none, arrives without message and id. */
  lemma UnframedArrives(p: PacketState)
    requires Packable(p) && !Framed(p.message)
    ensures Run(None, Payloads(p)) == Result(None, [Received(p).(message := Absent, packId := -1)])
  {
    hide FromJson, Header, Parse, Clean, Sendable, DoubleFree, ParseBuffer, Dom, Payloads, Document, Run, Framed,
         WireKind, Attachments;
    TextHeader(p);
    HeaderParsed(p);
    Sending(p);
    FirstPayload(p);
    RunNothing(PutPayload(None, Header(p)).partial);
    var x := Received(p).(message := Absent, packId := -1);
    assert [x] + [] == [x];
  }

  /** An event packet whose message is a number. */
  lemma NumberLost(n: int)
    requires Sendable(IntMessage(n))
    ensures var p := PacketState(MESSAGE_FRAME, EVENT, [], -1, IntMessage(n), 0, []);
            && Packable(p)
            && Run(None, Payloads(p)) == Result(None, [p.(nsp := [SLASH], message := Absent)])
  {
    UnframedArrives(PacketState(MESSAGE_FRAME, EVENT, [], -1, IntMessage(n), 0, []));
  }

  /** A packet of another frame, such as a ping, arrives as that frame at once, whatever is awaited. */
  lemma FrameReturns(p: PacketState, partial: Option<PacketState>)
    requires Acceptable(p) && p.frame != MESSAGE_FRAME && Holding(partial)
    ensures Run(partial, Payloads(p)) == Result(partial, [FRESH.(frame := p.frame, nsp := [SLASH])])
  {
    var t: bytes := [ZERO + p.frame];
    var q := FRESH.(frame := p.frame, nsp := [SLASH]);
    assert !IsText(t) && !IsAttachment(t);
    assert FindFirstOf(t, 1, OPENERS + {SLASH}) == None;
    assert PutPayload(partial, t) == Reaction(partial, Some(q), false);
    assert [t][1..] == [];
    assert [q] + [] == [q];
  }

  /** A payload of another frame with a JSON text behind it is parsed there and then. */
  lemma OtherFrameParsed(f: int, body: bytes, partial: Option<PacketState>)
    requires 0 <= f <= NOOP_FRAME && f != 4 && Opens(body) && Holding(partial)
    ensures PutPayload(partial, [48 + f] + body)
         == match FromJson(Document(body), [])
            case None => Reaction(partial, None, true)
            case Some(m) => Reaction(partial, Some(FRESH.(frame := f, nsp := [SLASH], message := m)), false)
  {
    hide FromJson, Document;
    var t: bytes := [48 + f] + body;
    assert t[1..] == body && t[1] == body[0];
    assert !IsText(t) && !IsAttachment(t);
    assert FindFirstOf(t, 1, OPENERS + {SLASH}) == Some(1);
  }

  /** The handshake, and any other frame that carries a message: it is delivered with its message and with the
      namespace "/", at once and whatever is awaited. */
  lemma OtherFrameDelivered(f: int, m: Message, partial: Option<PacketState>)
    requires 0 <= f <= NOOP_FRAME && f != 4 && Holding(partial)
    requires Sendable(m) && DoubleFree(m) && Framed(m) && Clean(m) && Attachments(m) == []
    ensures Run(partial, [[48 + f] + Text(Dom(m, 0), Compact)])
         == Result(partial, [FRESH.(frame := f, nsp := [SLASH], message := m)])
  {
    hide FromJson, Document, PutPayload, Clean, Sendable, DoubleFree, Dom, Text;
    var body := SioPacket.Body(m);
    BodyTells(m);
    DocumentOfBody(m);
    assert Carries([], 0, Attachments(m));
    Rebuilds(m, 0, []);
    OtherFrameParsed(f, body, partial);
    var t: bytes, q := [48 + f] + body, FRESH.(frame := f, nsp := [SLASH], message := m);
    assert [t][1..] == [] && [t][0] == t;
    RunNothing(partial);
    assert [q] + [] == [q];
  }

  /** What from_json makes of the message, with its attachments at hand. */
  lemma Sending(p: PacketState)
    requires Packable(p)
    ensures Framed(p.message) ==>
              (FromJson(Dom(p.message, 0), Attachments(p.message)) == Some(p.message) <==> Clean(p.message))
    ensures Framed(p.message) ==> Document(Body(p.message)) == Dom(p.message, 0)
    ensures !Framed(p.message) ==> Attachments(p.message) == []
    ensures Framed(p.message) ==> !p.message.Absent?
  {
    if Framed(p.message) {
      hide Dom, Clean, FromJson, Document;
      var atts := Attachments(p.message);
      assert atts[0..0 + |atts|] == atts;
      Rebuilds(p.message, 0, atts);
      DocumentOfBody(p.message);
    }
  }

  // ---------------------------------------------------------------- interleaving

  /** A payload on the connection: a part of one of the packets followed, or of none. */
  datatype Item = Item(payload: bytes, ours: bool)

  /** A heartbeat or any other payload that is no attachment and announces none. */
  predicate Bystander(t: bytes) {
    !IsAttachment(t) && (IsText(t) ==> !Parse(t, FRESH).More?)
  }

  predicate Interleaved(items: seq<Item>) {
    forall i | 0 <= i < |items| && !items[i].ours :: Bystander(items[i].payload)
  }

  function Ours(items: seq<Item>): seq<bytes> {
    if items == [] then []
    else (if items[0].ours then [items[0].payload] else []) + Ours(items[1..])
  }

  /** A run over such a connection; only what our payloads complete is listed. */
  function RunItems(partial: Option<PacketState>, items: seq<Item>): (r: Result)
    requires Holding(partial)
    decreases |items|
  {
    if items == [] then Result(partial, [])
    else
      var r := PutPayload(partial, items[0].payload);
      var rest := RunItems(r.partial, items[1..]);
      Result(rest.partial, (if items[0].ours then Listed(r.delivered) else []) + rest.delivered)
  }

  /** A bystander leaves the partial packet alone, and is handled as if there were none. */
  lemma BystanderAlone(partial: Option<PacketState>, t: bytes)
    requires Holding(partial) && Bystander(t)
    ensures PutPayload(partial, t).partial == partial
    ensures PutPayload(partial, t).delivered == PutPayload(None, t).delivered
  {
    hide Parse;
  }

  lemma {:induction false} BystandersIgnored(partial: Option<PacketState>, items: seq<Item>)
    requires Holding(partial) && Interleaved(items)
    ensures RunItems(partial, items) == Run(partial, Ours(items))
    decreases |items|
  {
    hide PutPayload, Bystander;
    if items != [] {
      var t := items[0].payload;
      if items[0].ours {
        assert Ours(items)[1..] == Ours(items[1..]);
      } else {
        BystanderAlone(partial, t);
        assert Ours(items) == Ours(items[1..]);
      }
      BystandersIgnored(PutPayload(partial, t).partial, items[1..]);
    }
  }

  function AllReceived(ps: seq<PacketState>): seq<PacketState> {
    seq(|ps|, i requires 0 <= i < |ps| => Received(ps[i]))
  }

  /** Any list of encoded packets, on a connection with any bystanders in between, is delivered: exactly
      those packets, in order. */
  lemma {:induction false} PacketsDelivered(ps: seq<PacketState>, items: seq<Item>)
    requires forall i | 0 <= i < |ps| :: Packable(ps[i]) && Returns(ps[i])
    requires Interleaved(items) && Ours(items) == AllPayloads(ps)
    ensures RunItems(None, items) == Result(None, AllReceived(ps))
  {
    BystandersIgnored(None, items);
    RunDelivers(ps);
  }

  lemma {:induction false} RunDelivers(ps: seq<PacketState>)
    requires forall i | 0 <= i < |ps| :: Packable(ps[i]) && Returns(ps[i])
    ensures Run(None, AllPayloads(ps)) == Result(None, AllReceived(ps))
  {
    hide Packable, Returns, Received, Payloads, Run;
    if ps == [] {
      RunNothing(None);
    } else {
      CanBeAccepted(ps[0]);
      PacketReturns(ps[0]);
      RunDelivers(ps[1..]);
      RunConcat(None, Payloads(ps[0]), AllPayloads(ps[1..]));
      assert [Received(ps[0])] + AllReceived(ps[1..]) == AllReceived(ps);
    }
  }

  lemma CanBeAccepted(p: PacketState)
    requires Packable(p)
    ensures Acceptable(p)
  {
  }

  lemma RunNothing(partial: Option<PacketState>)
    requires Holding(partial)
    ensures Run(partial, []) == Result(partial, [])
  {
  }

  // ---------------------------------------------------------------- while attachments are awaited

  /** The JSON text and the buffers held, and the buffers still to come. */
  function Expected(q: PacketState): nat {
    |q.buffers| + q.pending
  }

  /** As long as the same packet is waited for, buffers held plus buffers pending stays what it was. */
  lemma {:induction false} ExpectationKept(partial: Option<PacketState>, items: seq<Item>)
    requires Holding(partial)
    requires forall i | 0 <= i < |items| :: IsAttachment(items[i].payload) || Bystander(items[i].payload)
    ensures var q := RunItems(partial, items).partial;
            q.Some? ==> partial.Some? && Expected(q.value) == Expected(partial.value)
    decreases |items|
  {
    hide Parse, FromJson, Document;
    if items != [] {
      var t := items[0].payload;
      if Bystander(t) {
        BystanderAlone(partial, t);
      }
      ExpectationKept(PutPayload(partial, t).partial, items[1..]);
    }
  }

  /** From its header on, a waiting packet holds or awaits one buffer more than the header announced. */
  lemma HeldAndPending(header: bytes, items: seq<Item>)
    requires IsText(header) && Parse(header, FRESH).More?
    requires forall i | 0 <= i < |items| :: IsAttachment(items[i].payload) || Bystander(items[i].payload)
    ensures var q := RunItems(PutPayload(None, header).partial, items).partial;
            q.Some? ==> |q.value.buffers| + q.value.pending == Parse(header, FRESH).p.pending + 1
  {
    hide Parse;
    ExpectationKept(PutPayload(None, header).partial, items);
  }

  // ---------------------------------------------------------------- while another packet is awaited

  /** A header that announces attachments takes the place of a packet still waited for; any other leaves it. */
  lemma HeaderAmid(t: bytes, partial: Option<PacketState>)
    requires Holding(partial) && IsText(t)
    ensures PutPayload(partial, t).delivered == PutPayload(None, t).delivered
    ensures PutPayload(partial, t).partial == if Parse(t, FRESH).More? then PutPayload(None, t).partial else partial
  {
    hide Parse;
  }

  /** So a packet that comes back does so whatever is awaited, and only its own attachments end the wait. */
  lemma ReturnsAmid(p: PacketState, partial: Option<PacketState>)
    requires Packable(p) && Returns(p) && Holding(partial)
    ensures Run(partial, Payloads(p)) == Result(if Attachments(p.message) == [] then partial else None, [Received(p)])
  {
    PacketReturns(p);
    TextHeader(p);
    HeaderParsed(p);
    Sending(p);
    hide Parse, Header, Attachments, Frames, FromJson, Document, Clean, Sendable, DoubleFree, Dom, Received, WireKind,
         Framed;
    HeaderAmid(Header(p), partial);
    FirstPayload(p);
    hide PutPayload;
    var rest := Frames(Attachments(p.message));
    assert Payloads(p)[0] == Header(p) && Payloads(p)[1..] == rest;
    if rest == [] {
      RunNothing(partial);
      RunNothing(PutPayload(None, Header(p)).partial);
    }
  }
}
