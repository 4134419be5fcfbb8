/** The Socket.IO packet codec: the text header, the scanner that takes it apart, and the packet that
    waits for its attachments. */
module SioPacket {
  import opened Bytes
  import opened JsonGrammar
  import opened JsonDom
  import opened JsonText
  import opened JsonRoundTrip
  import opened Options
  import opened SioMessage

  /** The fields of a packet. */
  datatype PacketState = PacketState(
    frame: int, kind: int, nsp: bytes, packId: int, message: Message, pending: nat, buffers: seq<bytes>)

  const MESSAGE_FRAME: int := 4
  const CONNECT: int := 0
  const EVENT: int := 2
  const ACK: int := 3
  const ERROR: int := 4
  const BINARY_EVENT: int := 5
  const BINARY_ACK: int := 6
  const UNDETERMINED: int := 16

  /** packet(): no frame and type yet. */
  const FRESH: PacketState := PacketState(0, UNDETERMINED, [], -1, Absent, 0, [])

  predicate IsBinary(kind: int) {
    kind == BINARY_EVENT || kind == BINARY_ACK
  }

  // ---------------------------------------------------------------- the sender's side

  /** The type that goes on the wire. */
  function WireKind(kind: int, hasBinary: bool): int {
    var k := if kind >= UNDETERMINED then kind - UNDETERMINED else kind;
    if k == EVENT && hasBinary then BINARY_EVENT else if k == ACK && hasBinary then BINARY_ACK else k
  }

  function CountThen(n: nat, rest: bytes): bytes {
    if n == 0 then rest else Decimal(n) + ([MINUS] + rest)
  }

  predicate Named(nsp: bytes) {
    nsp != [] && nsp != [SLASH]
  }

  function NspThen(nsp: bytes, comma: bool, rest: bytes): bytes {
    if !Named(nsp) then rest else nsp + (if comma then [COMMA] + rest else rest)
  }

  function IdThen(id: int, rest: bytes): bytes {
    if id >= 0 then Decimal(id) + rest else rest
  }

  function Body(m: Message): bytes
    requires m.Absent? || Sendable(m)
  {
    if m.Absent? then [] else Text(Dom(m, 0), Compact)
  }

  /** The payload of a message packet, without its attachments. */
  function Header(p: PacketState): bytes
    requires 0 <= WireKind(p.kind, false) <= BINARY_ACK
    requires p.message.Absent? || Sendable(p.message)
  {
    var n := |Attachments(p.message)|;
    [ZERO + MESSAGE_FRAME, ZERO + WireKind(p.kind, n > 0)]
    + CountThen(n, NspThen(p.nsp, !p.message.Absent? || p.packId >= 0, IdThen(p.packId, Body(p.message))))
  }

  // ---------------------------------------------------------------- searching and casting

  /** find_first_of: the first position from p on that holds a byte of set. */
  function FindFirstOf(t: bytes, p: nat, any: set<byte>): (r: Option<nat>)
    ensures r.Some? ==> p <= r.value < |t| && t[r.value] in any
    ensures r.Some? ==> forall k | p <= k < r.value :: t[k] !in any
    ensures r.None? ==> forall k | p <= k < |t| :: t[k] !in any
    decreases |t| - p
  {
    if p >= |t| then None else if t[p] in any then Some(p) else FindFirstOf(t, p + 1, any)
  }

  lemma {:induction false} FindSkips(t: bytes, p: nat, q: nat, any: set<byte>)
    requires p <= q <= |t| && forall k | p <= k < q :: t[k] !in any
    ensures FindFirstOf(t, p, any) == FindFirstOf(t, q, any)
    decreases q - p
  {
    if p < q {
      FindSkips(t, p + 1, q, any);
    }
  }

  /** The search passes over a piece of text that has none of the bytes. */
  lemma FindPast(t: bytes, p: nat, a: bytes, rest: bytes, any: set<byte>)
    requires Suffix(t, p, a + rest) && forall k | 0 <= k < |a| :: a[k] !in any
    ensures p + |a| <= |t| && Suffix(t, p + |a|, rest)
    ensures FindFirstOf(t, p, any) == FindFirstOf(t, p + |a|, any)
  {
    SuffixSplit(t, p, a, rest);
    assert forall k | p <= k < p + |a| :: t[k] == t[p..p + |a|][k - p];
    FindSkips(t, p, p + |a|, any);
  }

  predicate Digits(s: bytes) {
    s != [] && forall k | 0 <= k < |s| :: IsDigit(s[k])
  }

  /** lexical_cast<unsigned>; None where it throws. A minus sign would wrap, but none gets here. */
  function CastUnsigned(s: bytes): Option<nat> {
    var d := if s != [] && s[0] == PLUS then s[1..] else s;
    if Digits(d) && ValueOf(d) < TWO32 then Some(ValueOf(d)) else None
  }

  /** lexical_cast<int>; None where it throws. */
  function CastInt(s: bytes): Option<int> {
    if s != [] && s[0] == MINUS then
      var d := s[1..];
      if Digits(d) && ValueOf(d) <= TWO31 then Some(-(ValueOf(d) as int)) else None
    else
      var d := if s != [] && s[0] == PLUS then s[1..] else s;
      if Digits(d) && ValueOf(d) < TWO31 then Some(ValueOf(d)) else None
  }

  lemma CastDecimal(n: nat)
    ensures n < TWO32 ==> CastUnsigned(Decimal(n)) == Some(n)
    ensures n < TWO31 ==> CastInt(Decimal(n)) == Some(n)
  {
    DecimalDenotes(n);
    assert IsDigit(Decimal(n)[0]);
  }

  // ---------------------------------------------------------------- the receiver's side

  /** How parse and parse_buffer end: attachments are awaited, the packet is complete, or an exception
      or a failed assertion cuts the call short. */
  datatype Outcome = More(p: PacketState) | Ready(p: PacketState) | Failed

  const OPENERS: set<byte> := {LBRACE, LBRACKET, QUOTE}

  /** A char minus '0'. */
  function Code(c: byte): int {
    (if c < 128 then c as int else c - 256) - ZERO
  }

  /** Document::Parse leaves a null document when the text is no JSON. */
  function Document(t: bytes): Value {
    match ParseDom(t)
    case Some(v) => v
    case None => NullValue
  }

  function Parse(t: bytes, was: PacketState): (r: Outcome)
    ensures r.More? ==> |r.p.buffers| == 1
  {
    var q := was.(frame := Code(Peek(t, 0)), message := Absent, packId := -1, buffers := [], pending := 0);
    if q.frame != MESSAGE_FRAME then ParseNsp(t, 1, q)
    else
      var kind := Code(Peek(t, 1));
      if kind < CONNECT || kind > BINARY_ACK then Ready(q.(kind := kind))
      else if !IsBinary(kind) then ParseNsp(t, 2, q.(kind := kind))
      else
        var score := FindFirstOf(t, 0, {MINUS});
        match CastUnsigned(if score.Some? && score.value >= 2 then t[2..score.value] else t[2..])
        case None => Failed
        case Some(n) => ParseNsp(t, if score.Some? then score.value + 1 else 0, q.(kind := kind, pending := n))
  }

  function ParseNsp(t: bytes, pos: nat, q: PacketState): (r: Outcome)
    ensures r.More? ==> |r.p.buffers| == |q.buffers| + 1
  {
    match FindFirstOf(t, pos, OPENERS + {SLASH})
    case None => Ready(q.(nsp := [SLASH]))
    case Some(start) =>
      if t[start] != SLASH then ParseBody(t, pos, start, q.(nsp := [SLASH]))
      else
        match FindFirstOf(t, 0, {COMMA})
        case None => Ready(q.(nsp := t[start..]))
        case Some(comma) =>
          var q' := q.(nsp := if comma < start then t[start..] else t[start..comma]);
          match FindFirstOf(t, comma + 1, OPENERS)
          case None => Ready(q')
          case Some(json) => ParseBody(t, comma + 1, json, q')
  }

  function ParseBody(t: bytes, pos: nat, json: nat, q: PacketState): (r: Outcome)
    requires pos <= json <= |t|
    ensures r.More? ==> |r.p.buffers| == |q.buffers| + 1
  {
    var id := if pos < json then CastInt(t[pos..json]) else Some(q.packId);
    match id
    case None => Failed
    case Some(id) =>
      var q' := q.(packId := id);
      if q.frame == MESSAGE_FRAME && IsBinary(q.kind) then More(q'.(buffers := q.buffers + [t[json..]]))
      else
        match FromJson(Document(t[json..]), [])
        case None => Failed
        case Some(m) => Ready(q'.(message := m))
  }

  function ParseBuffer(payload: bytes, q: PacketState): (r: Outcome)
    requires payload != [] && q.buffers != []
    ensures r.More? ==> |r.p.buffers| + r.p.pending == |q.buffers| + q.pending && |r.p.buffers| > |q.buffers|
  {
    if q.pending == 0 then Ready(q)
    else
      var q' := q.(buffers := q.buffers + [payload[1..]], pending := q.pending - 1);
      if q'.pending > 0 then More(q')
      else
        match FromJson(Document(q'.buffers[0]), q'.buffers[1..])
        case None => Failed
        case Some(m) => Ready(q'.(message := m, buffers := []))
  }

  // ---------------------------------------------------------------- what comes back

  predicate DoubleFree(m: Message) {
    match m
    case DoubleMessage(_) => false
    case ArrayMessage(ms) => forall i | 0 <= i < |ms| :: DoubleFree(ms[i])
    case ObjectMessage(es) => forall i | 0 <= i < |es| :: DoubleFree(es[i].value)
    case _ => true
  }

  lemma {:induction false} DomPrintable(m: Message, base: nat)
    requires Sendable(m) && DoubleFree(m)
    ensures Printable(Dom(m, base))
    decreases m, 1
  {
    match m
    case IntMessage(n) => ConstructorsAgree(n);
    case BinaryMessage(_) => ConstructorsAgree(ToInt(base));
    case ArrayMessage(ms) => ElementsPrintable(ms, base);
    case ObjectMessage(es) => EntriesPrintable(es, base);
    case _ =>
  }

  lemma {:induction false} ElementsPrintable(ms: seq<Message>, base: nat)
    requires forall i | 0 <= i < |ms| :: Sendable(ms[i]) && DoubleFree(ms[i])
    ensures Printable(ArrayValue(ElementDoms(ms, base)))
    decreases ms, 0
  {
    if ms != [] {
      DomPrintable(ms[0], base);
      ElementsPrintable(ms[1..], base + |Attachments(ms[0])|);
    }
  }

  lemma {:induction false} EntriesPrintable(es: seq<Entry>, base: nat)
    requires forall i | 0 <= i < |es| :: Sendable(es[i].value) && DoubleFree(es[i].value)
    ensures Printable(ObjectValue(EntryDoms(es, base)))
    decreases es, 0
  {
    if es != [] {
      DomPrintable(es[0].value, base);
      EntriesPrintable(es[1..], base + |Attachments(es[0].value)|);
    }
  }

  const NOOP_FRAME: int := 6

  /** A packet accept can take: any frame, and for a message one of the types and a message without doubles. */
  predicate Acceptable(p: PacketState) {
    && 0 <= p.frame <= NOOP_FRAME
    && (p.frame == MESSAGE_FRAME ==>
          && CONNECT <= WireKind(p.kind, false) <= BINARY_ACK
          && (p.message.Absent? || (Sendable(p.message) && DoubleFree(p.message))))
  }

  /** A message packet as the client makes them: an event, an ack or another type, a namespace that can
      be told from what follows it, and binary values only where the header can announce them. */
  predicate Packable(p: PacketState) {
    && Acceptable(p)
    && p.frame == MESSAGE_FRAME
    && WireKind(p.kind, false) <= ERROR
    && (p.nsp == [] || (p.nsp[0] == SLASH && COMMA !in p.nsp))
    && p.packId < TWO31
    && (Attachments(p.message) != [] ==> WireKind(p.kind, false) == EVENT || WireKind(p.kind, false) == ACK)
    && |Attachments(p.message)| < TWO31
  }

  /** Its JSON text starts with a bracket or a quote, which is what parse looks for. */
  predicate Framed(m: Message) {
    m.StringMessage? || m.BinaryMessage? || m.ArrayMessage? || m.ObjectMessage?
  }

  /** Exactly the packets that come back. */
  predicate Returns(p: PacketState) {
    if p.message.Absent? then p.packId < 0 else Framed(p.message) && Clean(p.message)
  }

  /** How the receiver sees a packet: the empty namespace as "/", every negative id as -1. */
  function Received(p: PacketState): PacketState {
    PacketState(MESSAGE_FRAME, WireKind(p.kind, Attachments(p.message) != []), if p.nsp == [] then [SLASH] else p.nsp,
                if p.packId < 0 then -1 else p.packId, p.message, 0, [])
  }

  // ---------------------------------------------------------------- a header taken apart

  /** The text after the namespace and the id: it starts with an opener, or it has none. */
  predicate Telling(body: bytes) {
    Opens(body) || forall k | 0 <= k < |body| :: body[k] !in OPENERS + {SLASH}
  }

  predicate Opens(body: bytes) {
    body != [] && body[0] in OPENERS
  }

  lemma IntegerTells(n: int)
    ensures Telling(IntegerText(n) + []) && !Opens(IntegerText(n) + [])
  {
    var d := Decimal(if n < 0 then -n else n);
    assert forall k | 0 <= k < |d| :: IsDigit(d[k]);
    hide Decimal;
    var b := IntegerText(n) + [];
    assert b == if n < 0 then [MINUS] + d else d;
    assert forall k | 0 <= k < |b| :: b[k] == MINUS || IsDigit(b[k]);
  }

  lemma BodyTells(m: Message)
    requires m.Absent? || (Sendable(m) && DoubleFree(m))
    ensures Telling(Body(m))
    ensures Framed(m) <==> Opens(Body(m))
  {
    hide IntegerText, ElementDoms, EntryDoms, ElementsThen, MembersThen, EscapedThen;
    match m
    case IntMessage(n) => IntegerTells(n);
    case _ =>
  }

  /** The search from the start of the body. */
  lemma BodyFound(t: bytes, body: bytes, any: set<byte>)
    requires |body| <= |t| && Suffix(t, |t| - |body|, body) && Telling(body)
    requires OPENERS <= any <= OPENERS + {SLASH}
    ensures FindFirstOf(t, |t| - |body|, any) == if Opens(body) then Some(|t| - |body|) else None
    ensures Opens(body) ==> t[|t| - |body|] in OPENERS
  {
    var at := |t| - |body|;
    if Opens(body) {
      assert t[at] == body[0];
    } else {
      forall k | at <= k < |t| ensures t[k] !in any {
        assert t[k] == t[at..][k - at] == body[k - at];
      }
      FindSkips(t, at, |t|, any);
    }
  }

  /** Where the JSON text is found, and the id before it. */
  lemma IdParsed(t: bytes, pos: nat, id: int, body: bytes, any: set<byte>)
    requires Suffix(t, pos, IdThen(id, body)) && Telling(body) && id < TWO31
    requires OPENERS <= any <= OPENERS + {SLASH}
    ensures |body| <= |t| && pos <= |t| - |body| && Suffix(t, |t| - |body|, body)
    ensures FindFirstOf(t, pos, any) == if Opens(body) then Some(|t| - |body|) else None
    ensures Opens(body) ==> t[|t| - |body|] in OPENERS
    ensures id < 0 ==> pos == |t| - |body|
    ensures id >= 0 ==> pos < |t| - |body| && CastInt(t[pos..|t| - |body|]) == Some(id)
  {
    hide FindFirstOf, Telling, CastInt, Suffix, Opens;
    if id >= 0 {
      IdPassed(t, pos, id, body, any);
    } else {
      SuffixEnd(t, pos, body);
    }
    BodyFound(t, body, any);
  }

  /** The digits of an id hold nothing that is searched for. */
  lemma IdPassed(t: bytes, pos: nat, id: nat, body: bytes, any: set<byte>)
    requires Suffix(t, pos, Decimal(id) + body) && id < TWO31 && any <= OPENERS + {SLASH}
    ensures |body| < |t| && pos < |t| - |body| && Suffix(t, |t| - |body|, body)
    ensures FindFirstOf(t, pos, any) == FindFirstOf(t, |t| - |body|, any)
    ensures CastInt(t[pos..|t| - |body|]) == Some(id)
  {
    var d := Decimal(id);
    assert forall k | 0 <= k < |d| :: IsDigit(d[k]);
    assert forall k | 0 <= k < |d| :: d[k] !in any;
    hide Decimal, FindFirstOf, CastInt, IsDigit;
    FindPast(t, pos, d, body, any);
    SuffixSplit(t, pos, d, body);
    CastDecimal(id);
    SuffixEnd(t, pos + |d|, body);
  }

  /** The JSON part, once found. */
  lemma BodyParsed(t: bytes, pos: nat, id: int, body: bytes, q: PacketState)
    requires Suffix(t, pos, IdThen(id, body)) && Telling(body) && Opens(body)
    requires id < TWO31 && q.packId == -1 && q.buffers == [] && q.frame == MESSAGE_FRAME
    ensures |body| <= |t| && pos <= |t| - |body|
    ensures ParseBody(t, pos, |t| - |body|, q) == Finished(q.(packId := if id < 0 then -1 else id), body)
  {
    hide CastInt, FromJson, Document;
    IdParsed(t, pos, id, body, OPENERS);
  }

  function Finished(q: PacketState, body: bytes): Outcome {
    if IsBinary(q.kind) then More(q.(buffers := [body]))
    else
      match FromJson(Document(body), [])
      case None => Failed
      case Some(m) => Ready(q.(message := m))
  }

  /** Without a namespace the id or the JSON text comes first. */
  lemma UnnamedParsed(t: bytes, pos: nat, id: int, body: bytes, q: PacketState)
    requires Suffix(t, pos, IdThen(id, body)) && Telling(body) && id < TWO31
    requires q.packId == -1 && q.buffers == [] && q.frame == MESSAGE_FRAME
    ensures ParseNsp(t, pos, q)
         == if Opens(body) then Finished(q.(nsp := [SLASH], packId := if id < 0 then -1 else id), body)
            else Ready(q.(nsp := [SLASH]))
  {
    hide IdThen, Finished, ParseBody, Telling, Suffix;
    IdParsed(t, pos, id, body, OPENERS + {SLASH});
    if Opens(body) {
      BodyParsed(t, pos, id, body, q.(nsp := [SLASH]));
    }
  }

  lemma NamedParsed(t: bytes, pos: nat, nsp: bytes, comma: bool, rest: bytes)
    requires Named(nsp) && nsp[0] == SLASH && COMMA !in nsp && (!comma ==> rest == [])
    requires Suffix(t, pos, NspThen(nsp, comma, rest))
    requires forall k | 0 <= k < pos :: t[k] != COMMA
    ensures FindFirstOf(t, pos, OPENERS + {SLASH}) == Some(pos) && t[pos] == SLASH
    ensures FindFirstOf(t, 0, {COMMA}) == if comma then Some(pos + |nsp|) else None
    ensures comma ==> pos + |nsp| < |t| && t[pos..pos + |nsp|] == nsp && Suffix(t, pos + |nsp| + 1, rest)
    ensures !comma ==> t[pos..] == nsp
  {
    var tail := if comma then [COMMA] + rest else rest;
    assert t[pos] == t[pos..][0];
    FindSkips(t, 0, pos, {COMMA});
    FindPast(t, pos, nsp, tail, {COMMA});
    SuffixSplit(t, pos, nsp, tail);
    if comma {
      SuffixHead(t, pos + |nsp|, COMMA, rest);
    }
  }

  /** A namespace, with or without a comma and what follows it. */
  lemma NspEnds(t: bytes, pos: nat, nsp: bytes, comma: bool, id: int, body: bytes, q: PacketState)
    requires Named(nsp) && nsp[0] == SLASH && COMMA !in nsp
    requires Telling(body) && id < TWO31 && (!comma ==> IdThen(id, body) == [] && body == [])
    requires Suffix(t, pos, NspThen(nsp, comma, IdThen(id, body)))
    requires forall k | 0 <= k < pos :: t[k] != COMMA
    requires q.packId == -1 && q.buffers == [] && q.frame == MESSAGE_FRAME
    ensures ParseNsp(t, pos, q)
         == if Opens(body) then Finished(q.(nsp := nsp, packId := if id < 0 then -1 else id), body)
            else Ready(q.(nsp := nsp))
  {
    hide IdThen, Finished, ParseBody, Telling, Suffix, NspThen;
    NamedParsed(t, pos, nsp, comma, IdThen(id, body));
    if comma {
      var at := pos + |nsp| + 1;
      IdParsed(t, at, id, body, OPENERS);
      if Opens(body) {
        BodyParsed(t, at, id, body, q.(nsp := nsp));
      }
    }
  }

  /** The namespace, the id and the JSON text. */
  lemma NspParsed(t: bytes, pos: nat, p: PacketState, q: PacketState)
    requires Packable(p) && Suffix(t, pos, TailOf(p))
    requires forall k | 0 <= k < pos :: t[k] != COMMA
    requires q.packId == -1 && q.buffers == [] && q.frame == MESSAGE_FRAME
    ensures ParseNsp(t, pos, q)
         == if Framed(p.message) then
              Finished(q.(nsp := Received(p).nsp, packId := Received(p).packId), Body(p.message))
            else Ready(q.(nsp := Received(p).nsp))
  {
    hide Suffix, Text, Sendable, DoubleFree, Attachments, Finished, Telling, ParseNsp, Framed, WireKind;
    BodyTells(p.message);
    var body := Body(p.message);
    if Named(p.nsp) {
      NspEnds(t, pos, p.nsp, !p.message.Absent? || p.packId >= 0, p.packId, body, q);
    } else {
      UnnamedParsed(t, pos, p.packId, body, q);
    }
  }

  /** The count of attachments, after the frame and the type and before the first minus sign. */
  lemma CountParsed(t: bytes, n: nat, rest: bytes) returns (pos: nat)
    requires Suffix(t, 2, Decimal(n) + ([MINUS] + rest)) && n < TWO31
    requires forall k | 0 <= k < 2 :: t[k] != COMMA && t[k] != MINUS
    ensures 3 < pos <= |t| && Suffix(t, pos, rest) && forall k | 0 <= k < pos :: t[k] != COMMA
    ensures FindFirstOf(t, 0, {MINUS}) == Some(pos - 1) && CastUnsigned(t[2..pos - 1]) == Some(n)
  {
    var d := Decimal(n);
    assert forall k | 0 <= k < |d| :: IsDigit(d[k]);
    CastDecimal(n);
    hide Decimal, CastUnsigned;
    FindSkips(t, 0, 2, {MINUS});
    FindPast(t, 2, d, [MINUS] + rest, {MINUS});
    SuffixSplit(t, 2, d, [MINUS] + rest);
    SuffixHead(t, 2 + |d|, MINUS, rest);
    assert forall k | 2 <= k < 2 + |d| :: t[k] == t[2..2 + |d|][k - 2];
    pos := 2 + |d| + 1;
  }

  /** The text after the count. */
  function TailOf(p: PacketState): bytes
    requires p.message.Absent? || Sendable(p.message)
  {
    NspThen(p.nsp, !p.message.Absent? || p.packId >= 0, IdThen(p.packId, Body(p.message)))
  }

  /** The first two bytes of a header, and what follows them. */
  lemma HeaderStarts(p: PacketState)
    requires Packable(p)
    ensures var t := Header(p);
            && |t| >= 2 && t[0] == ZERO + MESSAGE_FRAME && t[1] == ZERO + Received(p).kind
            && t[2..] == CountThen(|Attachments(p.message)|, TailOf(p))
  {
    hide CountThen, NspThen, IdThen, Body, Attachments, Sendable, DoubleFree;
    var lead := [ZERO + MESSAGE_FRAME, ZERO + Received(p).kind];
    assert Header(p) == lead + CountThen(|Attachments(p.message)|, TailOf(p));
  }

  /** The frame, the type and the number of attachments. */
  lemma KindParsed(p: PacketState) returns (pos: nat)
    requires Packable(p)
    ensures Suffix(Header(p), pos, TailOf(p))
    ensures forall k | 0 <= k < pos :: Header(p)[k] != COMMA
    ensures Parse(Header(p), FRESH) == ParseNsp(Header(p), pos, Announced(p))
  {
    hide TailOf, ParseNsp, Sendable, DoubleFree, Decimal, CastUnsigned, FindFirstOf, Attachments, Header;
    var t, n := Header(p), |Attachments(p.message)|;
    HeaderStarts(p);
    pos := 2;
    if n > 0 {
      pos := CountParsed(t, n, TailOf(p));
    }
  }

  /** The packet before its namespace is read. */
  function Announced(p: PacketState): PacketState {
    FRESH.(frame := MESSAGE_FRAME, kind := Received(p).kind, pending := |Attachments(p.message)|)
  }

  lemma DocumentOfBody(m: Message)
    requires Sendable(m) && DoubleFree(m)
    ensures Document(Body(m)) == Dom(m, 0)
  {
    DomPrintable(m, 0);
    ParseInvertsText(Dom(m, 0), Compact);
  }

  /** What parse makes of an encoded packet. */
  lemma HeaderParsed(p: PacketState)
    requires Packable(p)
    ensures Parse(Header(p), FRESH)
         == if !Framed(p.message) then Ready(Received(p).(message := Absent, packId := -1))
            else if Attachments(p.message) != [] then
              More(Received(p).(message := Absent, pending := |Attachments(p.message)|, buffers := [Body(p.message)]))
            else
              match FromJson(Dom(p.message, 0), [])
              case None => Failed
              case Some(m) => Ready(Received(p).(message := m))
  {
    hide Parse, ParseNsp, Header, NspThen, IdThen, Sendable, DoubleFree, FromJson, Clean;
    var pos := KindParsed(p);
    NspParsed(Header(p), pos, p, Announced(p));
    if Framed(p.message) {
      DocumentOfBody(p.message);
    } else {
      assert Attachments(p.message) == [];
    }
  }
}
