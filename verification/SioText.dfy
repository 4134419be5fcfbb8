/** Socket.IO messages and packets in the characters that go over the wire, and what from_json makes of a document
    that no message has. */
module SioText {
  import opened Bytes
  import opened JsonDom
  import opened JsonLiterals
  import opened JsonText
  import opened SioMessage
  import opened SioPacket
  import opened SioManager

  // ---------------------------------------------------------------- messages

  /** The JSON text of a message before whose binary values stand k others. */
  function MessageText(m: Message, k: nat): bytes
    decreases m, 1
  {
    match m
    case Absent => []
    case NullMessage => Ascii("null")
    case BoolMessage(b) => if b then Ascii("true") else Ascii("false")
    case IntMessage(n) => JsonLiterals.Integer(n)
    case DoubleMessage(literal) => literal
    case StringMessage(s) => Quoted(s)
    case BinaryMessage(_) => Mark(k)
    case ArrayMessage(ms) => Ascii("[") + ListText(ms, k) + Ascii("]")
    case ObjectMessage(es) => Ascii("{") + EntriesText(es, k) + Ascii("}")
  }

  /** {"_placeholder":true,"num":k} */
  function Mark(k: nat): bytes {
    Ascii("{") + Quoted(Ascii("_placeholder")) + Ascii(":true,") + Quoted(Ascii("num")) + Ascii(":") + Numeral(k)
    + Ascii("}")
  }

  function ListText(ms: seq<Message>, k: nat): bytes
    decreases ms, 0
  {
    if ms == [] then []
    else
      MessageText(ms[0], k)
      + if |ms| == 1 then [] else Ascii(",") + ListText(ms[1..], k + |Attachments(ms[0])|)
  }

  function EntriesText(es: seq<Entry>, k: nat): bytes
    decreases es, 0
  {
    if es == [] then []
    else
      Quoted(es[0].key) + Ascii(":") + MessageText(es[0].value, k)
      + if |es| == 1 then [] else Ascii(",") + EntriesText(es[1..], k + |Attachments(es[0].value)|)
  }

  lemma CompactArray(vs: seq<Value>, depth: nat)
    ensures Printed(ArrayValue(vs), Compact, depth)
         == Ascii("[") + (if vs == [] then [] else JsonLiterals.Elements(vs, Compact, depth + 1)) + Ascii("]")
  {
    hide JsonLiterals.Elements;
  }

  lemma CompactObject(ms: seq<Member>, depth: nat)
    ensures Printed(ObjectValue(ms), Compact, depth)
         == Ascii("{") + (if ms == [] then [] else JsonLiterals.Members(ms, Compact, depth + 1)) + Ascii("}")
  {
    hide JsonLiterals.Members;
  }

  lemma CompactElements(v: Value, vs: seq<Value>, depth: nat)
    ensures JsonLiterals.Elements([v] + vs, Compact, depth)
         == Printed(v, Compact, depth)
            + if vs == [] then [] else Ascii(",") + JsonLiterals.Elements(vs, Compact, depth)
  {
    hide Printed;
    assert ([v] + vs)[1..] == vs;
    assert Comma(Compact, depth) == Ascii(",");
  }

  lemma CompactMembers(m: Member, ms: seq<Member>, depth: nat)
    ensures JsonLiterals.Members([m] + ms, Compact, depth)
         == Quoted(m.name) + Ascii(":") + Printed(m.value, Compact, depth)
            + if ms == [] then [] else Ascii(",") + JsonLiterals.Members(ms, Compact, depth)
  {
    hide Printed, Quoted;
    assert ([m] + ms)[1..] == ms;
    assert Comma(Compact, depth) == Ascii(",");
  }

  /** What accept_message and the writer make of a message. */
  lemma {:induction false} DomText(m: Message, k: nat, depth: nat)
    requires Sendable(m) && k + |Attachments(m)| <= 0x8000_0000
    ensures Printed(Dom(m, k), Compact, depth) == MessageText(m, k)
    decreases m, 1
  {
    match m
    case BinaryMessage(_) => PlaceholderText(k, depth);
    case ArrayMessage(ms) =>
      hide Printed, ListText, ElementAttachments, JsonLiterals.Elements;
      CompactArray(ElementDoms(ms, k), depth);
      ListIs(ms, k, depth + 1);
    case ObjectMessage(es) =>
      hide Printed, EntriesText, EntryAttachments, JsonLiterals.Members;
      CompactObject(EntryDoms(es, k), depth);
      EntriesAre(es, k, depth + 1);
    case _ =>
  }

  lemma Names()
    ensures PLACEHOLDER == Ascii("_placeholder") && NUM == Ascii("num")
  {
  }

  lemma PlaceholderText(k: nat, depth: nat)
    requires k < 0x8000_0000
    ensures Printed(Placeholder(k), Compact, depth) == Mark(k)
  {
    var a, b := Member(PLACEHOLDER, BoolValue(true)), Member(NUM, OfInt(k));
    PlaceholderIs(k);
    TwoMembers(a, b, depth);
    PrintedParts(k, depth + 1);
    Names();
    hide Printed, Quoted, Numeral, PLACEHOLDER, NUM, Ascii, Placeholder;
    Rejoined(Quoted(a.name), Quoted(b.name), Numeral(k));
  }

  lemma PlaceholderIs(k: nat)
    requires k < 0x8000_0000
    ensures Placeholder(k) == ObjectValue([Member(PLACEHOLDER, BoolValue(true)), Member(NUM, OfInt(k))])
  {
  }

  lemma PrintedParts(k: nat, depth: nat)
    requires k < 0x8000_0000
    ensures Printed(BoolValue(true), Compact, depth) == Ascii("true") && Printed(OfInt(k), Compact, depth) == Numeral(k)
  {
  }

  lemma TwoMembers(a: Member, b: Member, depth: nat)
    ensures Printed(ObjectValue([a, b]), Compact, depth)
         == Ascii("{")
            + (Quoted(a.name) + Ascii(":") + Printed(a.value, Compact, depth + 1)
               + (Ascii(",") + (Quoted(b.name) + Ascii(":") + Printed(b.value, Compact, depth + 1) + [])))
            + Ascii("}")
  {
    hide Printed, Quoted, JsonLiterals.Members;
    CompactObject([a, b], depth);
    CompactMembers(a, [b], depth + 1);
    CompactMembers(b, [], depth + 1);
    assert [a, b] == [a] + [b] && [b] == [b] + [];
  }

  lemma Rejoined(x: bytes, y: bytes, n: bytes)
    ensures Ascii("{") + (x + Ascii(":") + Ascii("true") + (Ascii(",") + (y + Ascii(":") + n + []))) + Ascii("}")
         == Ascii("{") + x + Ascii(":true,") + y + Ascii(":") + n + Ascii("}")
  {
    assert Ascii(":true,") == Ascii(":") + Ascii("true") + Ascii(",");
    hide Ascii;
  }

  lemma {:induction false} ListIs(ms: seq<Message>, k: nat, depth: nat)
    requires forall i | 0 <= i < |ms| :: Sendable(ms[i])
    requires k + |ElementAttachments(ms)| <= 0x8000_0000
    ensures (if ms == [] then [] else JsonLiterals.Elements(ElementDoms(ms, k), Compact, depth)) == ListText(ms, k)
    ensures ElementDoms(ms, k) == [] <==> ms == []
    decreases ms, 0
  {
    hide Printed, Dom, Attachments, Sendable, MessageText, JsonLiterals.Elements;
    if ms != [] {
      var next := k + |Attachments(ms[0])|;
      DomText(ms[0], k, depth);
      ListIs(ms[1..], next, depth);
      CompactElements(Dom(ms[0], k), ElementDoms(ms[1..], next), depth);
    }
  }

  lemma {:induction false} EntriesAre(es: seq<Entry>, k: nat, depth: nat)
    requires forall i | 0 <= i < |es| :: Sendable(es[i].value)
    requires k + |EntryAttachments(es)| <= 0x8000_0000
    ensures (if es == [] then [] else JsonLiterals.Members(EntryDoms(es, k), Compact, depth)) == EntriesText(es, k)
    ensures EntryDoms(es, k) == [] <==> es == []
    decreases es, 0
  {
    hide Printed, Dom, Attachments, Sendable, MessageText, Quoted, JsonLiterals.Members;
    if es != [] {
      var next := k + |Attachments(es[0].value)|;
      DomText(es[0].value, k, depth);
      EntriesAre(es[1..], next, depth);
      CompactMembers(Member(es[0].key, Dom(es[0].value, k)), EntryDoms(es[1..], next), depth);
    }
  }

  // ---------------------------------------------------------------- packets

  /** The digit of a packet's type. An event or ack that carries binary values has one of its own. */
  function KindDigit(kind: int, binary: bool): bytes {
    var k := if kind >= 16 then kind - 16 else kind;
    if k == 0 then Ascii("0") else if k == 1 then Ascii("1")
    else if k == 2 then (if binary then Ascii("5") else Ascii("2"))
    else if k == 3 then (if binary then Ascii("6") else Ascii("3"))
    else Ascii("4")
  }

  /** A message packet without its attachments. */
  function PacketText(p: PacketState): bytes {
    var n := |Attachments(p.message)|;
    Ascii("4") + KindDigit(p.kind, n > 0)
    + (if n > 0 then Numeral(n) + Ascii("-") else [])
    + (if p.nsp == [] || p.nsp == Ascii("/") then []
       else if p.message.Absent? && p.packId < 0 then p.nsp
       else p.nsp + Ascii(","))
    + (if p.packId >= 0 then Numeral(p.packId) else [])
    + MessageText(p.message, 0)
  }

  lemma BodyIs(m: Message)
    requires (m.Absent? || Sendable(m)) && |Attachments(m)| <= 0x8000_0000
    ensures SioPacket.Body(m) == MessageText(m, 0)
  {
    if !m.Absent? {
      hide Dom, Attachments, Sendable, MessageText, Printed;
      DomText(m, 0, 0);
      DocumentIs(Dom(m, 0), Compact);
    }
  }

  lemma KindIs(p: PacketState, binary: bool)
    requires 0 <= WireKind(p.kind, false) <= ERROR
    requires binary ==> WireKind(p.kind, false) == EVENT || WireKind(p.kind, false) == ACK
    ensures [ZERO + MESSAGE_FRAME, ZERO + WireKind(p.kind, binary)] == Ascii("4") + KindDigit(p.kind, binary)
  {
  }

  lemma CountIs(n: nat, rest: bytes)
    ensures CountThen(n, rest) == (if n > 0 then Numeral(n) + Ascii("-") else []) + rest
  {
    DecimalIs(n);
    assert [MINUS] == Ascii("-");
  }

  lemma NspIs(nsp: bytes, comma: bool, rest: bytes)
    requires !comma ==> rest == []
    ensures NspThen(nsp, comma, rest)
         == (if nsp == [] || nsp == Ascii("/") then [] else if !comma then nsp else nsp + Ascii(",")) + rest
  {
    assert [SLASH] == Ascii("/") && [COMMA] == Ascii(",");
  }

  lemma IdIs(id: int, rest: bytes)
    ensures IdThen(id, rest) == (if id >= 0 then Numeral(id) else []) + rest
  {
    if id >= 0 {
      DecimalIs(id);
    }
  }

  lemma Pieces(a: bytes, b: bytes, c: bytes, d: bytes, e: bytes)
    ensures a + (b + (c + (d + e))) == a + b + c + d + e
  {
  }

  /** The first payload of a packet, character by character. */
  lemma HeaderIs(p: PacketState)
    requires Packable(p)
    ensures Header(p) == PacketText(p)
  {
    hide Sendable, DoubleFree, MessageText, Numeral, KindDigit, CountThen, NspThen, IdThen, WireKind, Attachments, Ascii;
    var n, body, comma := |Attachments(p.message)|, SioPacket.Body(p.message), !p.message.Absent? || p.packId >= 0;
    BodyIs(p.message);
    KindIs(p, n > 0);
    IdIs(p.packId, body);
    NspIs(p.nsp, comma, IdThen(p.packId, body));
    CountIs(n, NspThen(p.nsp, comma, IdThen(p.packId, body)));
    Pieces(Ascii("4") + KindDigit(p.kind, n > 0),
           if n > 0 then Numeral(n) + Ascii("-") else [],
           if p.nsp == [] || p.nsp == Ascii("/") then [] else if !comma then p.nsp else p.nsp + Ascii(","),
           if p.packId >= 0 then Numeral(p.packId) else [], body);
  }

  /** All the payloads: the text, and each binary value behind a byte 4. */
  lemma PayloadsAre(p: PacketState)
    requires Packable(p)
    ensures var atts := Attachments(p.message);
            Payloads(p) == [PacketText(p)] + seq(|atts|, i requires 0 <= i < |atts| => [4] + atts[i])
  {
    hide Header, PacketText, Attachments, Sendable, DoubleFree;
    HeaderIs(p);
  }
}
