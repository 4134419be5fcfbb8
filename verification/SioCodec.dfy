/** packet and packet_manager as objects whose fields parsing and sending update. */
module SioCodec {
  import opened Bytes
  import opened JsonDom
  import opened JsonText
  import opened Options
  import opened SioMessage
  import opened SioPacket
  import JsonHandlers
  import M = SioManager

  /** What parse and parse_buffer tell their caller; Failure stands for an exception or a failed assertion. */
  datatype Verdict = NeedsBuffers | Complete | Failure

  class Packet {
    var frame: int
    var kind: int
    var nsp: bytes
    var packId: int
    var message: Message
    var pending: nat
    var buffers: seq<bytes>

    /** The empty constructor, for parsing. */
    constructor ()
      ensures Now() == FRESH
    {
      frame, kind, nsp, packId, message, pending, buffers := 0, UNDETERMINED, [], -1, Absent, 0, [];
    }

    /** An event or an ack. */
    constructor Message(nsp: bytes, msg: Message, packId: int, isAck: bool)
      requires isAck ==> packId >= 0
      ensures Now() == PacketState(MESSAGE_FRAME, (if isAck then ACK else EVENT) + UNDETERMINED,
                                   nsp, packId, msg, 0, [])
    {
      frame, kind := MESSAGE_FRAME, (if isAck then ACK else EVENT) + UNDETERMINED;
      this.nsp, this.packId, message, pending, buffers := nsp, packId, msg, 0, [];
    }

    /** A packet of another frame. */
    constructor Frame(frame: int)
      ensures Now() == FRESH.(frame := frame)
    {
      this.frame, kind, nsp, packId, message, pending, buffers := frame, UNDETERMINED, [], -1, Absent, 0, [];
    }

    ghost function Now(): PacketState
      reads this
    {
      PacketState(frame, kind, nsp, packId, message, pending, buffers)
    }

    /** The packet is now as parse or parse_buffer is specified to leave it. */
    ghost predicate Became(verdict: Verdict, o: Outcome)
      reads this
    {
      match o
      case More(p) => verdict == NeedsBuffers && Now() == p
      case Ready(p) => verdict == Complete && Now() == p
      case Failed => verdict == Failure
    }

    method Parse(t: bytes) returns (verdict: Verdict)
      modifies this
      ensures Became(verdict, SioPacket.Parse(t, old(Now())))
    {
      hide SioPacket.ParseNsp, FindFirstOf, CastUnsigned;
      frame := Code(Peek(t, 0));
      message, packId, buffers, pending := Absent, -1, [], 0;
      var pos := 1;
      if frame == MESSAGE_FRAME {
        kind := Code(Peek(t, pos));
        if kind < CONNECT || kind > BINARY_ACK {
          return Complete;
        }
        pos := pos + 1;
        if IsBinary(kind) {
          var score := FindFirstOf(t, 0, {MINUS});
          var count := CastUnsigned(if score.Some? && score.value >= pos then t[pos..score.value] else t[pos..]);
          if count.None? {
            return Failure;
          }
          pending := count.value;
          pos := if score.Some? then score.value + 1 else 0;
        }
      }
      verdict := ParseNsp(t, pos);
    }

    method ParseNsp(t: bytes, from: nat) returns (verdict: Verdict)
      modifies `nsp, `packId, `buffers, `message
      ensures Became(verdict, SioPacket.ParseNsp(t, from, old(Now())))
    {
      hide SioPacket.ParseBody, FindFirstOf;
      var pos := from;
      var start := FindFirstOf(t, pos, OPENERS + {SLASH});
      if start.None? {
        nsp := [SLASH];
        return Complete;
      }
      var json := start.value;
      if t[json] == SLASH {
        var comma := FindFirstOf(t, 0, {COMMA});
        if comma.None? {
          nsp := t[json..];
          return Complete;
        }
        nsp := if comma.value < json then t[json..] else t[json..comma.value];
        pos := comma.value + 1;
        var found := FindFirstOf(t, pos, OPENERS);
        if found.None? {
          return Complete;
        }
        json := found.value;
      } else {
        nsp := [SLASH];
      }
      verdict := ParseBody(t, pos, json);
    }

    method ParseBody(t: bytes, pos: nat, json: nat) returns (verdict: Verdict)
      requires pos <= json <= |t|
      modifies `packId, `buffers, `message
      ensures Became(verdict, SioPacket.ParseBody(t, pos, json, old(Now())))
    {
      hide FromJson, Document, CastInt;
      if pos < json {
        var id := CastInt(t[pos..json]);
        if id.None? {
          return Failure;
        }
        packId := id.value;
      }
      if frame == MESSAGE_FRAME && IsBinary(kind) {
        buffers := buffers + [t[json..]];
        return NeedsBuffers;
      }
      var msg := FromJson(Document(t[json..]), []);
      if msg.None? {
        return Failure;
      }
      message := msg.value;
      return Complete;
    }

    method ParseBuffer(t: bytes) returns (verdict: Verdict)
      requires M.IsAttachment(t) && buffers != []
      modifies `pending, `buffers, `message
      ensures Became(verdict, SioPacket.ParseBuffer(t, old(Now())))
    {
      hide FromJson, Document;
      if pending > 0 {
        buffers := buffers + [t[1..]];
        pending := pending - 1;
        if pending == 0 {
          var doc := Document(buffers[0]);
          buffers := buffers[1..];
          var msg := FromJson(doc, buffers);
          if msg.None? {
            return Failure;
          }
          message := msg.value;
          buffers := [];
          return Complete;
        }
        return NeedsBuffers;
      }
      return Complete;
    }

    /** The type on the wire: a message packet is binary when it has attachments. */
    method SettleKind(hasBinary: bool)
      requires kind <= UNDETERMINED + BINARY_ACK
      modifies `kind
      ensures kind == WireKind(old(kind), hasBinary)
    {
      kind := if kind >= UNDETERMINED then kind - UNDETERMINED else kind;
      if kind == EVENT {
        kind := if hasBinary then BINARY_EVENT else EVENT;
      } else if kind == ACK {
        kind := if hasBinary then BINARY_ACK else ACK;
      }
    }

    /** What goes through the string stream: type, count, namespace and id. */
    method Stream(hasMessage: bool, n: nat) returns (ss: bytes)
      requires 0 <= kind <= BINARY_ACK
      ensures ss == [ZERO + kind] + CountThen(n, NspThen(nsp, hasMessage || packId >= 0, IdThen(packId, [])))
    {
      hide Decimal, Named;
      ss := [ZERO + kind];
      if n > 0 {
        ss := ss + Decimal(n);
        ss := ss + [MINUS];
      }
      ghost var counted := ss;
      if Named(nsp) {
        ss := ss + nsp;
        if hasMessage || packId >= 0 {
          ss := ss + [COMMA];
        }
      }
      ghost var named := ss;
      if packId >= 0 {
        ss := ss + Decimal(packId);
      }
      StreamParts([ZERO + kind], n, counted, nsp, hasMessage || packId >= 0, named, packId, ss);
    }

    /** accept: the payload and the attachment frames of the packet. */
    method Accept() returns (payload: bytes, atts: seq<bytes>, hasBinary: bool)
      requires Acceptable(Now())
      modifies `kind
      ensures [payload] + atts == M.Payloads(old(Now())) && (hasBinary <==> atts != [])
      ensures kind == if frame == MESSAGE_FRAME then WireKind(old(kind), hasBinary) else old(kind)
    {
      if frame != MESSAGE_FRAME {
        payload, atts, hasBinary := [ZERO + frame], [], false;
        return;
      }
      payload, atts, hasBinary := AcceptMessagePacket();
    }

    method AcceptMessagePacket() returns (payload: bytes, atts: seq<bytes>, hasBinary: bool)
      requires frame == MESSAGE_FRAME && Acceptable(Now())
      modifies `kind
      ensures payload == Header(old(Now()))
      ensures atts == Frames(Attachments(message)) && (hasBinary <==> atts != [])
      ensures kind == WireKind(old(kind), hasBinary)
    {
      assert message.Absent? ==> Attachments(message) == [];
      hide Header, Attachments, Frames, Dom, Sendable, DoubleFree, CountThen, NspThen, IdThen;
      payload := [ZERO + MESSAGE_FRAME];
      var hasMessage := false;
      var doc := NullValue;
      atts := [];
      if !message.Absent? {
        doc, atts := AcceptMessage(message, atts);
        hasMessage := true;
      }
      hasBinary := |atts| > 0;
      SettleKind(hasBinary);
      var ss := Stream(hasMessage, |atts|);
      payload := payload + ss;
      var text := [];
      if hasMessage {
        DomPrintable(message, 0);
        text := JsonHandlers.Write(doc);
        payload := payload + text;
      }
      HeaderParts(old(Now()), ss, text);
    }
  }

  /** A text appended piece by piece is the text written before what follows. */
  lemma StreamParts(lead: bytes, n: nat, counted: bytes, nsp: bytes, comma: bool, named: bytes, id: int, ss: bytes)
    requires counted == if n > 0 then lead + Decimal(n) + [MINUS] else lead
    requires named == if !Named(nsp) then counted else if comma then counted + nsp + [COMMA] else counted + nsp
    requires ss == if id >= 0 then named + Decimal(id) else named
    ensures ss == lead + CountThen(n, NspThen(nsp, comma, IdThen(id, [])))
  {
    hide Decimal, Named;
    var tail := IdThen(id, []);
    assert ss == named + tail;
    assert named + tail == counted + NspThen(nsp, comma, tail) by {
      Associate(counted, nsp, [COMMA] + tail);
      Associate(counted, nsp, tail);
      Associate(counted + nsp, [COMMA], tail);
    }
    var rest := NspThen(nsp, comma, tail);
    hide NspThen, IdThen;
    Associate(lead + Decimal(n), [MINUS], rest);
    Associate(lead, Decimal(n), [MINUS] + rest);
  }

  lemma Associate(a: bytes, b: bytes, c: bytes)
    ensures a + b + c == a + (b + c)
  {
  }

  /** The pieces accept appends make up the header. */
  lemma HeaderParts(p: PacketState, ss: bytes, text: bytes)
    requires 0 <= WireKind(p.kind, false) <= BINARY_ACK && (p.message.Absent? || Sendable(p.message))
    requires text == Body(p.message)
    requires ss == [ZERO + WireKind(p.kind, |Attachments(p.message)| > 0)]
                 + CountThen(|Attachments(p.message)|,
                             NspThen(p.nsp, !p.message.Absent? || p.packId >= 0, IdThen(p.packId, [])))
    ensures Header(p) == [ZERO + MESSAGE_FRAME] + ss + text
  {
    hide Decimal, Attachments, Body, Sendable, Named, CountThen, NspThen, IdThen;
    var n, comma := |Attachments(p.message)|, !p.message.Absent? || p.packId >= 0;
    var k: bytes := [ZERO + WireKind(p.kind, n > 0)];
    var count := CountThen(n, NspThen(p.nsp, comma, IdThen(p.packId, [])));
    IdBefore(p.packId, text);
    NspBefore(p.nsp, comma, IdThen(p.packId, []), text);
    CountBefore(n, NspThen(p.nsp, comma, IdThen(p.packId, [])), text);
    Associate([ZERO + MESSAGE_FRAME], ss, text);
    Associate(k, count, text);
    Associate([ZERO + MESSAGE_FRAME], k, count + text);
    assert [ZERO + MESSAGE_FRAME] + k == [ZERO + MESSAGE_FRAME, ZERO + WireKind(p.kind, n > 0)];
  }

  lemma IdBefore(id: int, text: bytes)
    ensures IdThen(id, []) + text == IdThen(id, text)
  {
    hide Decimal;
  }

  lemma NspBefore(nsp: bytes, comma: bool, rest: bytes, text: bytes)
    ensures NspThen(nsp, comma, rest) + text == NspThen(nsp, comma, rest + text)
  {
    Associate(nsp, [COMMA] + rest, text);
    Associate(nsp, rest, text);
    Associate([COMMA], rest, text);
  }

  lemma CountBefore(n: nat, rest: bytes, text: bytes)
    ensures CountThen(n, rest) + text == CountThen(n, rest + text)
  {
    hide Decimal;
    Associate(Decimal(n), [MINUS] + rest, text);
    Associate([MINUS], rest, text);
  }

  /** packet_manager. The decode callback is the list of packets it was given; the encode callback, the
      list of what was handed to it, each marked as binary or not. */
  class PacketManager {
    var partial: Packet?
    var delivered: seq<PacketState>
    ghost var announced: nat

    constructor ()
      ensures Valid() && partial == null && delivered == []
    {
      partial, delivered, announced := null, [], 0;
    }

    /** A waiting packet holds its JSON text, and held plus pending stays one above the announced count. */
    ghost predicate Valid()
      reads this, partial
    {
      partial != null ==> partial.buffers != [] && |partial.buffers| + partial.pending == announced + 1
    }

    ghost function Partial(): Option<PacketState>
      reads this, partial
    {
      if partial == null then None else Some(partial.Now())
    }

    /** encode: the header first, then every attachment. */
    method Encode(pack: Packet) returns (sent: seq<(bool, bytes)>)
      requires Acceptable(pack.Now())
      modifies pack
      ensures |sent| == |M.Payloads(old(pack.Now()))|
      ensures forall i | 0 <= i < |sent| :: sent[i] == (i > 0, M.Payloads(old(pack.Now()))[i])
    {
      var payload, atts, _ := pack.Accept();
      assert ([payload] + atts)[0] == payload;
      sent := [(false, payload)];
      var i := 0;
      while i < |atts|
        invariant 0 <= i <= |atts| && |sent| == i + 1 && sent[0] == (false, payload)
        invariant forall k | 0 < k <= i :: sent[k] == (true, atts[k - 1])
      {
        sent := sent + [(true, atts[i])];
        i := i + 1;
      }
    }

    method Reset()
      modifies `partial
      ensures partial == null && Valid()
    {
      partial := null;
    }

    method PutPayload(t: bytes) returns (failed: bool)
      requires Valid()
      modifies this, partial
      ensures var r := M.PutPayload(old(Partial()), t);
              && failed == r.failed
              && Partial() == r.partial
              && delivered == old(delivered) + M.Listed(r.delivered)
      ensures Valid()
      ensures partial != null ==> partial == old(partial) || fresh(partial)
    {
      hide SioPacket.Parse, SioPacket.ParseBuffer;
      failed := false;
      if M.IsText(t) {
        var p := new Packet();
        var verdict := p.Parse(t);
        if verdict.NeedsBuffers? {
          partial := p;
          announced := p.pending;
        } else if verdict.Complete? {
          Deliver(p);
        } else {
          failed := true;
        }
      } else if M.IsAttachment(t) {
        if partial != null {
          var p := partial;
          var verdict := p.ParseBuffer(t);
          if verdict.Complete? {
            partial := null;
            Deliver(p);
          } else if verdict.Failure? {
            partial := null;
            failed := true;
          }
        }
      } else {
        var p := new Packet();
        var verdict := p.Parse(t);
        if verdict.Failure? {
          failed := true;
        } else {
          Deliver(p);
        }
      }
    }

    method Deliver(p: Packet)
      modifies `delivered
      ensures delivered == old(delivered) + [p.Now()]
    {
      delivered := delivered +
        [PacketState(p.frame, p.kind, p.nsp, p.packId, p.message, p.pending, p.buffers)];
    }
  }
}
