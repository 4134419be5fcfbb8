/** Every accepted text reads as the events of one value, so the document ends with one root. */
module JsonTrees {
  import opened Bytes
  import opened JsonEvents
  import opened JsonGrammar
  import opened JsonDom
  import opened JsonText
  import opened JsonRoundTrip
  import opened Options

  /** The literal -0 is reported as Int(0), the writer's 0 as Uint(0); all else is reported one way. */
  function Plain(e: Event): Event {
    if e == Int(0) then Uint(0) else e
  }

  function PlainAll(es: seq<Event>): (ps: seq<Event>)
    ensures |ps| == |es|
  {
    seq(|es|, i requires 0 <= i < |es| => Plain(es[i]))
  }

  lemma PlainMore(log: seq<Event>, e: Event)
    ensures PlainAll(log + [e]) == PlainAll(log) + [Plain(e)]
  {
  }

  /** The document cannot tell -0 from 0. */
  lemma {:induction false} HandlePlain(stack: seq<Value>, es: seq<Event>)
    ensures HandleAll(stack, PlainAll(es)) == HandleAll(stack, es)
    decreases |es|
  {
    if es != [] {
      assert PlainAll(es)[1..] == PlainAll(es[1..]);
      assert Handle(stack, Plain(es[0])) == Handle(stack, es[0]);
      if Handle(stack, es[0]).Some? {
        HandlePlain(Handle(stack, es[0]).value, es[1..]);
      }
    }
  }

  /** The value a scalar's event stands for. */
  function ScalarOf(e: Event): Value {
    match e
    case Null => NullValue
    case Bool(b) => BoolValue(b)
    case Int(i) => Integer(i)
    case Uint(u) => Integer(u)
    case Int64(i64) => Integer(i64)
    case Uint64(u64) => Integer(u64)
    case Double(literal) => DoubleValue(literal)
    case String(s) => StringValue(s)
    case _ => NullValue
  }

  /** v's events, plainly, are what p reports beyond log. */
  predicate Reports(p: Progress, log: seq<Event>, v: Value) {
    WellFormed(v) && PlainAll(p.log) == PlainAll(log) + Events(v, FromText)
  }

  lemma NumberTree(t: bytes, p: nat, log: seq<Event>, h: Handler) returns (v: Value)
    requires p <= |t| && ParseNumber(t, p, log, h).status.Good?
    ensures Reports(ParseNumber(t, p, log, h), log, v)
  {
    hide BigDigits, Fraction, Exponent, DigitsEnd, ValueOf;
    var r := ParseNumber(t, p, log, h);
    var e := r.log[|log|];
    assert r.log == log + [e];
    PlainMore(log, e);
    v := ScalarOf(e);
  }

  lemma ScalarTree(t: bytes, p: nat, log: seq<Event>, h: Handler) returns (v: Value)
    requires p <= |t| && ParseScalar(t, p, log, h).status.Good?
    ensures Reports(ParseScalar(t, p, log, h), log, v)
  {
    hide ParseNumber;
    var c := Peek(t, p);
    if c == LOWER_N {
      v := NullValue;
    } else if c == LOWER_T {
      v := BoolValue(true);
    } else if c == LOWER_F {
      v := BoolValue(false);
    } else if c == QUOTE {
      v := StringValue(Body(t, p + 1).s);
    } else {
      v := NumberTree(t, p, log, h);
      return;
    }
    PlainMore(log, Events(v, FromText)[0]);
  }

  /** What an accepted value reports is the events of a value. */
  lemma {:induction false} ValueTree(t: bytes, p: nat, log: seq<Event>, h: Handler) returns (v: Value)
    requires p <= |t| && ParseValue(t, p, log, h).status.Good?
    ensures Reports(ParseValue(t, p, log, h), log, v)
    decreases |t| - p, 1
  {
    hide ParseScalar, Elements, JsonGrammar.Members, Reports;
    var c := Peek(t, p);
    if c == LBRACKET {
      assert ParseValue(t, p, log, h) == ParseArray(t, p, log, h);
      v := ArrayTree(t, p, log, h);
    } else if c == LBRACE {
      assert ParseValue(t, p, log, h) == ParseObject(t, p, log, h);
      v := ObjectTree(t, p, log, h);
    } else {
      v := ScalarTree(t, p, log, h);
    }
  }

  lemma Bracketed(log: seq<Event>, open: Event, body: seq<Event>, close: Event, r: seq<Event>)
    requires Plain(open) == open && Plain(close) == close
    requires PlainAll(r) == PlainAll(log + [open]) + body + [close]
    ensures PlainAll(r) == PlainAll(log) + ([open] + body + [close])
  {
    PlainMore(log, open);
  }

  lemma {:induction false} ArrayTree(t: bytes, p: nat, log: seq<Event>, h: Handler) returns (v: Value)
    requires p < |t| && ParseArray(t, p, log, h).status.Good?
    ensures Reports(ParseArray(t, p, log, h), log, v)
    decreases |t| - p, 0
  {
    hide ParseValue, Elements;
    var q := SkipSpace(t, p + 1);
    var log1 := log + [StartArray];
    var r := ArrayOpen(t, q, log1, h);
    assert ParseArray(t, p, log, h) == r;
    var vs: seq<Value> := [];
    if Peek(t, q) != RBRACKET {
      vs := ElementsTree(t, q, log1, h, 0);
    } else {
      PlainMore(log1, EndArray(0));
    }
    v := ArrayValue(vs);
    Bracketed(log, StartArray, ElementEvents(vs, FromText), EndArray(|vs|), r.log);
  }

  lemma {:induction false} ElementsTree(t: bytes, p: nat, log: seq<Event>, h: Handler, n: nat) returns (vs: seq<Value>)
    requires p <= |t| && Elements(t, p, log, h, n).status.Good?
    ensures forall i | 0 <= i < |vs| :: WellFormed(vs[i])
    ensures PlainAll(Elements(t, p, log, h, n).log)
         == PlainAll(log) + ElementEvents(vs, FromText) + [EndArray(n + |vs|)]
    decreases |t| - p, 2
  {
    hide ParseValue, WellFormed, PlainAll;
    var r := ParseValue(t, p, log, h);
    var v := ValueTree(t, p, log, h);
    assert Elements(t, p, log, h, n) == AfterElement(t, r.pos, r.log, h, n);
    var q := SkipSpace(t, r.pos);
    var rest: seq<Value> := [];
    if Peek(t, q) == COMMA {
      rest := ElementsTree(t, SkipSpace(t, q + 1), r.log, h, n + 1);
    } else {
      PlainMore(r.log, EndArray(n + 1));
    }
    vs := [v] + rest;
    assert vs[1..] == rest;
    assert PlainAll(r.log) + ElementEvents(rest, FromText) == PlainAll(log) + ElementEvents(vs, FromText);
  }

  lemma {:induction false} ObjectTree(t: bytes, p: nat, log: seq<Event>, h: Handler) returns (v: Value)
    requires p < |t| && ParseObject(t, p, log, h).status.Good?
    ensures Reports(ParseObject(t, p, log, h), log, v)
    decreases |t| - p, 0
  {
    hide ParseValue, JsonGrammar.Members;
    var q := SkipSpace(t, p + 1);
    var log1 := log + [StartObject];
    var r := ObjectOpen(t, q, log1, h);
    assert ParseObject(t, p, log, h) == r;
    var ms: seq<Member> := [];
    if Peek(t, q) != RBRACE {
      ms := MembersTree(t, q, log1, h, 0);
    } else {
      PlainMore(log1, EndObject(0));
    }
    v := ObjectValue(ms);
    Bracketed(log, StartObject, MemberEvents(ms, FromText), EndObject(|ms|), r.log);
  }

  lemma {:induction false} MembersTree(t: bytes, p: nat, log: seq<Event>, h: Handler, n: nat) returns (ms: seq<Member>)
    requires p <= |t| && JsonGrammar.Members(t, p, log, h, n).status.Good?
    ensures forall i | 0 <= i < |ms| :: WellFormed(ms[i].value)
    ensures PlainAll(JsonGrammar.Members(t, p, log, h, n).log)
         == PlainAll(log) + MemberEvents(ms, FromText) + [EndObject(n + |ms|)]
    decreases |t| - p, 2
  {
    hide ParseValue, WellFormed, AfterMember, PlainAll;
    var k := ParseString(t, p, log, h, true);
    var name := Body(t, p + 1).s;
    PlainMore(log, Key(name));
    assert JsonGrammar.Members(t, p, log, h, n) == AfterKey(t, k.pos, k.log, h, n);
    var q := SkipSpace(t, SkipSpace(t, k.pos) + 1);
    var r := ParseValue(t, q, k.log, h);
    assert AfterKey(t, k.pos, k.log, h, n) == MemberValue(t, q, k.log, h, n);
    var v := ValueTree(t, q, k.log, h);
    var rest := MembersTreeRest(t, r.pos, r.log, h, n);
    ms := [Member(name, v)] + rest;
    assert ms[1..] == rest;
    assert PlainAll(r.log) + MemberEvents(rest, FromText) == PlainAll(log) + MemberEvents(ms, FromText);
  }

  lemma {:induction false} MembersTreeRest(t: bytes, p: nat, log: seq<Event>, h: Handler, n: nat)
    returns (ms: seq<Member>)
    requires p <= |t| && AfterMember(t, p, log, h, n).status.Good?
    ensures forall i | 0 <= i < |ms| :: WellFormed(ms[i].value)
    ensures PlainAll(AfterMember(t, p, log, h, n).log)
         == PlainAll(log) + MemberEvents(ms, FromText) + [EndObject(n + 1 + |ms|)]
    decreases |t| - p, 0
  {
    hide ParseValue, WellFormed, JsonGrammar.Members, PlainAll;
    var q := SkipSpace(t, p);
    ms := [];
    if Peek(t, q) == COMMA {
      ms := MembersTree(t, SkipSpace(t, q + 1), log, h, n + 1);
    } else {
      PlainMore(log, EndObject(n + 1));
    }
  }

  /** On every accepted text the document's stack ends with one root: the assertion in ParseStream
      cannot fail, and no Pop goes below the stack. */
  lemma OneRoot(t: bytes) returns (v: Value)
    requires ParseDocument(t, ALWAYS, false).status.Good?
    ensures WellFormed(v)
    ensures PlainAll(ParseDocument(t, ALWAYS, false).log) == Events(v, FromText)
    ensures HandleAll([], ParseDocument(t, ALWAYS, false).log) == Some([v])
    ensures ParseDom(t) == Some(v)
  {
    hide ParseValue;
    var r := ParseDocument(t, ALWAYS, false);
    var p := SkipSpace(t, 0);
    v := ValueTree(t, p, [], ALWAYS);
    assert r.log == ParseValue(t, p, [], ALWAYS).log;
    assert PlainAll([]) + Events(v, FromText) == Events(v, FromText);
    HandlePlain([], r.log);
    Builds([], v, FromText);
    assert [] + [v] == [v];
  }

  /** Parsing any text, writing the document and parsing again changes nothing but the sign of -0. */
  lemma RewriteKeepsMeaning(t: bytes, lay: Layout)
    requires ValidLayout(lay) && ParseDom(t).Some? && NoDoubles(ParseDom(t).value)
    ensures ParseDom(Text(ParseDom(t).value, lay)) == ParseDom(t)
    ensures ParseDocument(Text(ParseDom(t).value, lay), ALWAYS, false).log
         == PlainAll(ParseDocument(t, ALWAYS, false).log)
  {
    var v := OneRoot(t);
    ParseInvertsText(v, lay);
    DocumentReadsBack(v, lay, ALWAYS, false);
  }

  /** The two logs differ exactly when a -0 was read. */
  lemma PlainExactly(es: seq<Event>)
    ensures PlainAll(es) == es <==> Int(0) !in es
  {
    if k :| 0 <= k < |es| && es[k] == Int(0) {
      assert PlainAll(es)[k] == Uint(0);
    }
  }

  /** The text -0. */
  lemma MinusZeroRewritten()
    ensures ParseDocument([MINUS, ZERO], ALWAYS, false).log == [Int(0)]
    ensures ParseDom([MINUS, ZERO]) == Some(Integer(0))
    ensures ParseDocument(Text(Integer(0), Compact), ALWAYS, false).log == [Uint(0)]
  {
    var t := [MINUS, ZERO];
    assert t[1..2] == [ZERO] && RunValue(t, 1, 2) == 0 by {
      RunOne(t, 1);
    }
    IntegerLiteral(t, 0, true, 1, 2, [], ALWAYS);
    assert ParseValue(t, 0, [], ALWAYS) == Progress(2, [Int(0)], Good);
    var v := OneRoot(t);
    assert Events(Integer(0), FromText) == [Uint(0)];
    DocumentReadsBack(Integer(0), Compact, ALWAYS, false);
  }
}
