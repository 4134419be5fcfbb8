/** Pretty text is compact text with white space outside string literals. */
module JsonStrip {
  import opened Bytes
  import opened JsonEvents
  import opened JsonGrammar
  import opened JsonDom
  import opened JsonText
  import opened JsonRoundTrip

  /** Delete the white space of a text, starting outside a string literal. */
  function Strip(t: bytes): bytes
    decreases |t|
  {
    if t == [] then []
    else if IsSpace(t[0]) then Strip(t[1..])
    else if t[0] == QUOTE then [QUOTE] + StripString(t[1..])
    else [t[0]] + Strip(t[1..])
  }

  /** The same, starting inside a string literal: a backslash protects the byte behind it. */
  function StripString(t: bytes): bytes
    decreases |t|
  {
    if t == [] then []
    else if t[0] == QUOTE then [QUOTE] + Strip(t[1..])
    else if t[0] == BACKSLASH && |t| >= 2 then t[..2] + StripString(t[2..])
    else [t[0]] + StripString(t[1..])
  }

  lemma {:induction false} StripSpaces(s: bytes, rest: bytes)
    requires forall i | 0 <= i < |s| :: IsSpace(s[i])
    ensures Strip(s + rest) == Strip(rest)
    decreases |s|
  {
    if s == [] {
      assert s + rest == rest;
    } else {
      assert (s + rest)[1..] == s[1..] + rest;
      StripSpaces(s[1..], rest);
    }
  }

  lemma {:induction false} StripPlain(s: bytes, rest: bytes)
    requires forall i | 0 <= i < |s| :: !IsSpace(s[i]) && s[i] != QUOTE
    ensures Strip(s + rest) == s + Strip(rest)
    decreases |s|
  {
    if s == [] {
      assert s + rest == rest && s + Strip(rest) == Strip(rest);
    } else {
      assert (s + rest)[1..] == s[1..] + rest;
      StripPlain(s[1..], rest);
      assert [s[0]] + (s[1..] + Strip(rest)) == s + Strip(rest);
    }
  }

  lemma StripOne(c: byte, rest: bytes)
    requires !IsSpace(c) && c != QUOTE
    ensures Strip([c] + rest) == [c] + Strip(rest)
  {
    StripPlain([c], rest);
  }

  lemma {:induction false} StripRaw(s: bytes, rest: bytes)
    requires forall i | 0 <= i < |s| :: s[i] != QUOTE && s[i] != BACKSLASH
    ensures StripString(s + rest) == s + StripString(rest)
    decreases |s|
  {
    if s == [] {
      assert s + rest == rest && s + StripString(rest) == StripString(rest);
    } else {
      assert (s + rest)[1..] == s[1..] + rest;
      StripRaw(s[1..], rest);
      assert [s[0]] + (s[1..] + StripString(rest)) == s + StripString(rest);
    }
  }

  /** A written byte keeps all its bytes, and the literal goes on behind it. */
  lemma StripEscape(c: byte, rest: bytes)
    ensures StripString(EscapeByte(c) + rest) == EscapeByte(c) + StripString(rest)
  {
    var s := EscapeByte(c);
    if EscapeCode(c) == 0 {
      StripRaw(s, rest);
    } else {
      assert (s + rest)[..2] == s[..2] && (s + rest)[2..] == s[2..] + rest;
      StripRaw(s[2..], rest);
      assert s[..2] + (s[2..] + StripString(rest)) == s + StripString(rest);
    }
  }

  lemma {:induction false} StripEscaped(s: bytes, rest: bytes)
    ensures StripString(EscapedThen(s, rest)) == EscapedThen(s, Strip(rest))
    decreases |s|
  {
    if s == [] {
      assert ([QUOTE] + rest)[1..] == rest;
    } else {
      StripEscape(s[0], EscapedThen(s[1..], rest));
      StripEscaped(s[1..], rest);
    }
  }

  lemma StripQuoted(s: bytes, rest: bytes)
    ensures Strip(QuotedThen(s, rest)) == QuotedThen(s, Strip(rest))
  {
    assert QuotedThen(s, rest)[1..] == EscapedThen(s, rest);
    StripEscaped(s, rest);
  }

  lemma StripGap(lay: Layout, depth: nat, rest: bytes)
    requires ValidLayout(lay)
    ensures Strip(Gap(lay, depth) + rest) == Strip(rest)
  {
    StripSpaces(Gap(lay, depth), rest);
  }

  lemma StripLead(first: bool, lay: Layout, depth: nat, rest: bytes)
    requires ValidLayout(lay)
    ensures Strip(LeadThen(first, lay, depth, rest)) == LeadThen(first, Compact, depth, Strip(rest))
  {
    StripGap(lay, depth, rest);
    assert [] + Strip(rest) == Strip(rest);
    if !first {
      StripOne(COMMA, Gap(lay, depth) + rest);
    }
  }

  lemma StripClose(empty: bool, lay: Layout, depth: nat, close: byte, rest: bytes)
    requires ValidLayout(lay) && (close == RBRACKET || close == RBRACE)
    ensures Strip(CloseThen(empty, lay, depth, close, rest)) == CloseThen(empty, Compact, depth, close, Strip(rest))
  {
    StripOne(close, rest);
    StripGap(lay, depth, [close] + rest);
    assert [] + ([close] + Strip(rest)) == [close] + Strip(rest);
  }

  lemma StripColon(lay: Layout, rest: bytes)
    ensures Strip(ColonThen(lay, rest)) == ColonThen(Compact, Strip(rest))
  {
    StripOne(COLON, ColonGap(lay) + rest);
    StripSpaces(ColonGap(lay), rest);
    assert [] + Strip(rest) == Strip(rest);
  }

  /** A double's literal, as dtoa writes it, holds no white space and no quote. */
  predicate PlainDoubles(v: Value) {
    match v
    case DoubleValue(literal) => forall i | 0 <= i < |literal| :: !IsSpace(literal[i]) && literal[i] != QUOTE
    case ArrayValue(vs) => forall i | 0 <= i < |vs| :: PlainDoubles(vs[i])
    case ObjectValue(ms) => forall i | 0 <= i < |ms| :: PlainDoubles(ms[i].value)
    case _ => true
  }

  lemma {:induction false} StripValue(v: Value, lay: Layout, depth: nat, rest: bytes)
    requires PlainDoubles(v) && ValidLayout(lay)
    ensures Strip(TextThen(v, lay, depth, rest)) == TextThen(v, Compact, depth, Strip(rest))
    decreases v, 1
  {
    hide Strip, CloseThen, PlainDoubles;
    match v
    case NullValue => StripPlain(NULL_TEXT, rest);
    case BoolValue(b) => StripPlain(if b then TRUE_TEXT else FALSE_TEXT, rest);
    case NumberValue(n, _) => StripPlain(IntegerText(n), rest);
    case DoubleValue(literal) =>
      PlainLiteral(v);
      StripPlain(literal, rest);
    case StringValue(s) => StripQuoted(s, rest);
    case ArrayValue(vs) =>
      PlainElements(v);
      var close := CloseThen(vs == [], lay, depth, RBRACKET, rest);
      StripOne(LBRACKET, ElementsThen(vs, lay, depth + 1, true, close));
      StripElements(vs, lay, depth + 1, true, close);
      StripClose(vs == [], lay, depth, RBRACKET, rest);
    case ObjectValue(ms) =>
      PlainElements(v);
      var close := CloseThen(ms == [], lay, depth, RBRACE, rest);
      StripOne(LBRACE, MembersThen(ms, lay, depth + 1, true, close));
      StripMembers(ms, lay, depth + 1, true, close);
      StripClose(ms == [], lay, depth, RBRACE, rest);
  }

  lemma PlainLiteral(v: Value)
    requires PlainDoubles(v) && v.DoubleValue?
    ensures forall i | 0 <= i < |v.literal| :: !IsSpace(v.literal[i]) && v.literal[i] != QUOTE
  {
  }

  lemma PlainElements(v: Value)
    requires PlainDoubles(v)
    ensures v.ArrayValue? ==> forall i | 0 <= i < |v.elements| :: PlainDoubles(v.elements[i])
    ensures v.ObjectValue? ==> forall i | 0 <= i < |v.members| :: PlainDoubles(v.members[i].value)
  {
  }

  lemma {:induction false} StripElements(vs: seq<Value>, lay: Layout, depth: nat, first: bool, rest: bytes)
    requires (forall i | 0 <= i < |vs| :: PlainDoubles(vs[i])) && ValidLayout(lay)
    ensures Strip(ElementsThen(vs, lay, depth, first, rest)) == ElementsThen(vs, Compact, depth, first, Strip(rest))
    decreases vs, 0
  {
    hide Strip, LeadThen, TextThen, PlainDoubles;
    if vs != [] {
      var rest1 := ElementsThen(vs[1..], lay, depth, false, rest);
      StripLead(first, lay, depth, TextThen(vs[0], lay, depth, rest1));
      StripValue(vs[0], lay, depth, rest1);
      StripElements(vs[1..], lay, depth, false, rest);
    }
  }

  lemma {:induction false} StripMembers(ms: seq<Member>, lay: Layout, depth: nat, first: bool, rest: bytes)
    requires (forall i | 0 <= i < |ms| :: PlainDoubles(ms[i].value)) && ValidLayout(lay)
    ensures Strip(MembersThen(ms, lay, depth, first, rest)) == MembersThen(ms, Compact, depth, first, Strip(rest))
    decreases ms, 0
  {
    hide Strip, LeadThen, TextThen, QuotedThen, ColonThen, PlainDoubles;
    if ms != [] {
      var rest1 := MembersThen(ms[1..], lay, depth, false, rest);
      var value := TextThen(ms[0].value, lay, depth, rest1);
      StripLead(first, lay, depth, QuotedThen(ms[0].name, ColonThen(lay, value)));
      StripQuoted(ms[0].name, ColonThen(lay, value));
      StripColon(lay, value);
      StripValue(ms[0].value, lay, depth, rest1);
      StripMembers(ms[1..], lay, depth, false, rest);
    }
  }

  /** Deleting the white space outside string literals from PrettyWriter's text gives Writer's. */
  lemma StripPretty(v: Value, lay: Layout)
    requires PlainDoubles(v) && ValidLayout(lay)
    ensures Strip(Text(v, lay)) == Text(v, Compact)
  {
    StripValue(v, lay, 0, []);
  }

  /** And both texts parse to the same events, for every handler that does not stop. */
  lemma PrettyReadsAlike(v: Value, lay: Layout, h: Handler, stopWhenDone: bool)
    requires Printable(v) && ValidLayout(lay) && Agreeable(h)
    ensures ParseDocument(Text(v, lay), h, stopWhenDone).log == ParseDocument(Text(v, Compact), h, stopWhenDone).log
    ensures ParseDocument(Text(v, lay), h, stopWhenDone).status.Good?
    ensures ParseDocument(Text(v, Compact), h, stopWhenDone).status.Good?
  {
    DocumentReadsBack(v, lay, h, stopWhenDone);
    DocumentReadsBack(v, Compact, h, stopWhenDone);
  }
}
