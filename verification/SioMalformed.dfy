/** What the packet manager makes of payloads no sender encodes. */
module SioMalformed {
  import opened Bytes
  import opened JsonGrammar
  import opened JsonRoundTrip
  import opened Options
  import opened SioMessage
  import opened SioPacket
  import opened SioManager

  /** What lexical_cast takes: digits, after a sign or none. */
  predicate Numeral(d: bytes, minus: bool) {
    var s := if d != [] && (d[0] == '+' as int || (minus && d[0] == '-' as int)) then d[1..] else d;
    s != [] && forall k | 0 <= k < |s| :: 48 <= s[k] <= 57
  }

  /** A type that is none of the seven: the packet is delivered with it and nothing else is read. */
  lemma UnknownKindDelivered(c: byte, rest: bytes, partial: Option<PacketState>)
    requires Holding(partial) && !(48 <= c <= 54) && c < 128
    ensures PutPayload(partial, [52, c] + rest) == Reaction(partial, Some(FRESH.(frame := 4, kind := c - 48)), false)
  {
    var t: bytes := [52, c] + rest;
    assert t[0] == 52 && t[1] == c && IsText(t);
  }

  /** A binary event or ack whose count of attachments is no number ends in an exception. */
  lemma CountRefused(k: byte, d: bytes, rest: bytes, partial: Option<PacketState>)
    requires Holding(partial) && (k == 53 || k == 54) && !Numeral(d, false)
    requires forall i | 0 <= i < |d| :: d[i] != '-' as int
    ensures PutPayload(partial, [52, k] + d + ['-' as int] + rest) == Reaction(partial, None, true)
    ensures PutPayload(partial, [52, k] + d) == Reaction(partial, None, true)
  {
    var head: bytes := [52, k] + d;
    assert head[2..] == d;
    CountedRefused(k, head + ['-' as int] + rest, head, partial);
    CountedRefused(k, head, head, partial);
  }

  lemma CountedRefused(k: byte, t: bytes, head: bytes, partial: Option<PacketState>)
    requires Holding(partial) && (k == 53 || k == 54)
    requires |head| >= 2 && head[0] == 52 && head[1] == k && !Numeral(head[2..], false)
    requires forall i | 0 <= i < |head| :: head[i] != '-' as int
    requires head <= t && (|t| > |head| ==> t[|head|] == '-' as int)
    ensures PutPayload(partial, t) == Reaction(partial, None, true)
  {
    CountCut(t, head);
    NotCast(head[2..]);
    hide FindFirstOf, CastUnsigned, Numeral, ParseNsp;
    assert t[0] == 52 && t[1] == k;
    assert if |t| > |head| then t[2..|head|] == head[2..] else t == head;
  }

  lemma CountCut(t: bytes, head: bytes)
    requires |head| >= 2 && forall i | 0 <= i < |head| :: head[i] != '-' as int
    requires head <= t && (|t| > |head| ==> t[|head|] == '-' as int)
    ensures FindFirstOf(t, 0, {MINUS}) == if |t| > |head| then Some(|head|) else None
  {
    FindSkips(t, 0, |head|, {MINUS});
  }

  /** So does an id that is no number. */
  lemma IdRefused(k: byte, d: bytes, body: bytes, partial: Option<PacketState>)
    requires Holding(partial) && 48 <= k <= 52 && d != [] && !Numeral(d, true) && Opens(body)
    requires forall i | 0 <= i < |d| :: d[i] !in OPENERS + {SLASH}
    ensures PutPayload(partial, [52, k] + d + body) == Reaction(partial, None, true)
  {
    hide FromJson, Document, ValueOf, Parse, FindFirstOf, Opens;
    var t: bytes := [52, k] + d + body;
    NotCast(d);
    OpenerFound(t, k, d, body);
    PlainTaken(t, 2 + |d|, d, body, k);
    assert t[0] == 52;
  }

  lemma NotCast(d: bytes)
    ensures !Numeral(d, true) ==> CastInt(d) == None
    ensures !Numeral(d, false) ==> CastUnsigned(d) == None
  {
    hide ValueOf;
  }

  /** A text that is no JSON is taken for null; any other gives what from_json makes of its document. */
  lemma EventParsed(body: bytes, partial: Option<PacketState>)
    requires Holding(partial) && Opens(body)
    ensures PutPayload(partial, [52, 50] + body)
         == match (match ParseDom(body) case None => Some(NullMessage) case Some(v) => FromJson(v, []))
            case None => Reaction(partial, None, true)
            case Some(m) => Reaction(partial, Some(FRESH.(frame := 4, kind := 2, nsp := [47], message := m)), false)
  {
    hide ParseDom;
    var t: bytes := [52, 50] + body;
    assert t[0] == 52 && t[1] == 50 && t[2] == body[0] && t[2..] == body;
    assert FindFirstOf(t, 2, OPENERS + {SLASH}) == Some(2);
  }

  /** An attachment that no header has announced is passed over. */
  lemma StrayAttachment(data: bytes)
    ensures PutPayload(None, [4] + data) == Reaction(None, None, false)
  {
    assert ([4] + data)[0] == 4;
  }

  /** An id is taken in decimal, after a plus, a minus or no sign, up to 31 bits; beyond them it is refused. */
  lemma IdTaken(k: byte, sign: bytes, digits: bytes, body: bytes, partial: Option<PacketState>)
    requires Holding(partial) && 48 <= k <= 52 && Opens(body)
    requires sign == [] || sign == ['+' as int] || sign == ['-' as int]
    requires digits != [] && forall i | 0 <= i < |digits| :: 48 <= digits[i] <= 57
    ensures PutPayload(partial, [52, k] + (sign + digits) + body)
         == var v := if sign == ['-' as int] then -(ValueOf(digits) as int) else ValueOf(digits);
            if !(-0x8000_0000 <= v < 0x8000_0000) then Reaction(partial, None, true)
            else
              match FromJson(Document(body), [])
              case None => Reaction(partial, None, true)
              case Some(m) =>
                var q := FRESH.(frame := 4, kind := k - 48, nsp := [47], packId := v, message := m);
                Reaction(partial, Some(q), false)
  {
    hide FromJson, Document, ValueOf, CastInt, Parse, FindFirstOf, Opens;
    var d := sign + digits;
    var t: bytes := [52, k] + d + body;
    CastIs(sign, digits);
    NoneSought(sign, digits);
    OpenerFound(t, k, d, body);
    PlainTaken(t, 2 + |d|, d, body, k);
    assert t[0] == 52;
  }

  /** A sign and digits hold nothing that is searched for. */
  lemma NoneSought(sign: bytes, digits: bytes)
    requires sign == [] || sign == ['+' as int] || sign == ['-' as int]
    requires forall i | 0 <= i < |digits| :: 48 <= digits[i] <= 57
    ensures forall i | 0 <= i < |sign + digits| :: (sign + digits)[i] !in OPENERS + {SLASH}
  {
  }

  lemma OpenerFound(t: bytes, k: byte, d: bytes, body: bytes)
    requires t == [52, k] + d + body && Opens(body) && forall i | 0 <= i < |d| :: d[i] !in OPENERS + {SLASH}
    ensures t[0] == 52 && t[1] == k && t[2..2 + |d|] == d && t[2 + |d|..] == body
    ensures FindFirstOf(t, 2, OPENERS + {SLASH}) == Some(2 + |d|)
  {
    var at := 2 + |d|;
    assert t[at] == body[0] && t[2..at] == d;
    forall i | 2 <= i < at ensures t[i] !in OPENERS + {SLASH} {
      assert t[i] == d[i - 2];
    }
    FindSkips(t, 2, at, OPENERS + {SLASH});
  }

  lemma CastIs(sign: bytes, digits: bytes)
    requires sign == [] || sign == ['+' as int] || sign == ['-' as int]
    requires digits != [] && forall i | 0 <= i < |digits| :: 48 <= digits[i] <= 57
    ensures var v := if sign == ['-' as int] then -(ValueOf(digits) as int) else ValueOf(digits);
            CastInt(sign + digits) == if -0x8000_0000 <= v < 0x8000_0000 then Some(v) else None
  {
    assert Digits(digits);
    hide ValueOf, Digits, CastInt;
    if sign == [] {
      CastPlain(digits);
      assert sign + digits == digits;
    } else if sign == ['-' as int] {
      CastNegative(sign + digits, digits);
    } else {
      CastPositive(sign + digits, digits);
    }
  }

  lemma CastPlain(digits: bytes)
    requires Digits(digits)
    ensures CastInt(digits) == if ValueOf(digits) < TWO31 then Some(ValueOf(digits)) else None
  {
    Unsigned(digits);
    hide ValueOf, Digits;
  }

  lemma CastNegative(s: bytes, digits: bytes)
    requires Digits(digits) && s == [MINUS] + digits
    ensures CastInt(s) == if ValueOf(digits) <= TWO31 then Some(-(ValueOf(digits) as int)) else None
  {
    hide ValueOf, Digits;
    assert s[1..] == digits && s[0] == MINUS;
  }

  lemma CastPositive(s: bytes, digits: bytes)
    requires Digits(digits) && s == [PLUS] + digits
    ensures CastInt(s) == if ValueOf(digits) < TWO31 then Some(ValueOf(digits)) else None
  {
    hide ValueOf, Digits;
    assert s[1..] == digits && s[0] == PLUS;
  }

  lemma Unsigned(digits: bytes)
    requires Digits(digits)
    ensures digits[0] != PLUS && digits[0] != MINUS
  {
  }

  lemma PlainTaken(t: bytes, at: nat, d: bytes, body: bytes, k: byte)
    requires |t| >= 2 && t[0] == 52 && t[1] == k && 48 <= k <= 52 && 2 < at < |t| && t[2..at] == d && t[at..] == body
    requires Opens(body) && FindFirstOf(t, 2, OPENERS + {SLASH}) == Some(at)
    ensures Parse(t, FRESH)
         == match CastInt(d)
            case None => Failed
            case Some(id) =>
              match FromJson(Document(body), [])
              case None => Failed
              case Some(m) => Ready(FRESH.(frame := 4, kind := k - 48, nsp := [47], packId := id, message := m))
  {
    hide FromJson, Document, CastInt, FindFirstOf;
    assert t[at] == body[0];
  }
}
