/** Writer and PrettyWriter: handlers that turn events into text with a level stack. */
module JsonWriter {
  import opened Bytes
  import opened JsonEvents
  import opened JsonDom
  import opened JsonText
  import opened Options

  datatype Level = Level(valueCount: nat, inArray: bool)

  /** A writer's output so far, its open containers and whether a root has been written. */
  datatype Page = Page(os: bytes, levels: seq<Level>, hasRoot: bool)

  function TopLevel(levels: seq<Level>): Level
    requires levels != []
  {
    levels[|levels| - 1]
  }

  function Popped(levels: seq<Level>): seq<Level>
    requires levels != []
  {
    levels[..|levels| - 1]
  }

  /** One more value at the top level. */
  function Counted(levels: seq<Level>): seq<Level> {
    if levels == [] then []
    else Popped(levels) + [TopLevel(levels).(valueCount := TopLevel(levels).valueCount + 1)]
  }

  /** At a place for a member's name. */
  predicate NameDue(levels: seq<Level>) {
    levels != [] && !TopLevel(levels).inArray && TopLevel(levels).valueCount % 2 == 0
  }

  /** The assertions of Prefix: one root, and a string where a name is due. */
  predicate MayWrite(w: Page, isString: bool) {
    (w.levels == [] ==> !w.hasRoot) && (NameDue(w.levels) ==> isString)
  }

  /** What Prefix puts in front of a value: comma, colon, line break and indent. */
  function Lead(levels: seq<Level>, lay: Layout): bytes {
    if levels == [] then []
    else if TopLevel(levels).inArray || NameDue(levels) then
      (if TopLevel(levels).valueCount > 0 then [COMMA] else []) + Gap(lay, |levels|)
    else [COLON] + ColonGap(lay)
  }

  function Led(w: Page, lay: Layout): Page {
    Page(w.os + Lead(w.levels, lay), Counted(w.levels), w.hasRoot || w.levels == [])
  }

  function PutText(w: Page, s: bytes): Page {
    w.(os := w.os + s)
  }

  function WriteScalar(w: Page, lay: Layout, isString: bool, s: bytes): Option<Page> {
    if MayWrite(w, isString) then Some(PutText(Led(w, lay), s)) else None
  }

  function WriteOpen(w: Page, lay: Layout, inArray: bool): Option<Page> {
    if MayWrite(w, false) then
      var w' := PutText(Led(w, lay), [if inArray then LBRACKET else LBRACE]);
      Some(w'.(levels := w'.levels + [Level(0, inArray)]))
    else None
  }

  function WriteClose(w: Page, lay: Layout, inArray: bool): Option<Page> {
    if w.levels != [] && TopLevel(w.levels).inArray == inArray then
      var gap := if TopLevel(w.levels).valueCount == 0 then [] else Gap(lay, |w.levels| - 1);
      Some(PutText(w, gap + [if inArray then RBRACKET else RBRACE]).(levels := Popped(w.levels)))
    else None
  }

  /** A handler call on a writer; None where the source asserts otherwise. */
  function WriteEvent(w: Page, lay: Layout, e: Event): Option<Page> {
    match e
    case Null => WriteScalar(w, lay, false, NULL_TEXT)
    case Bool(b) => WriteScalar(w, lay, false, if b then TRUE_TEXT else FALSE_TEXT)
    case Int(n) => WriteScalar(w, lay, false, IntegerText(n))
    case Uint(n) => WriteScalar(w, lay, false, IntegerText(n))
    case Int64(n) => WriteScalar(w, lay, false, IntegerText(n))
    case Uint64(n) => WriteScalar(w, lay, false, IntegerText(n))
    case Double(literal) => WriteScalar(w, lay, false, literal)
    case String(s) => WriteScalar(w, lay, true, QuotedThen(s, []))
    case Key(s) => WriteScalar(w, lay, true, QuotedThen(s, []))
    case StartObject => WriteOpen(w, lay, false)
    case StartArray => WriteOpen(w, lay, true)
    case EndObject(_) => WriteClose(w, lay, false)
    case EndArray(_) => WriteClose(w, lay, true)
  }

  function WriteAll(w: Page, lay: Layout, es: seq<Event>): Option<Page>
    decreases |es|
  {
    if es == [] then Some(w)
    else match WriteEvent(w, lay, es[0])
      case None => None
      case Some(w') => WriteAll(w', lay, es[1..])
  }

  lemma {:induction false} WriteConcat(w: Page, lay: Layout, a: seq<Event>, b: seq<Event>)
    ensures WriteAll(w, lay, a + b)
         == match WriteAll(w, lay, a) case None => None case Some(w') => WriteAll(w', lay, b)
    decreases |a|
  {
    if a == [] {
      assert a + b == b;
    } else {
      assert (a + b)[0] == a[0] && (a + b)[1..] == a[1..] + b;
      if WriteEvent(w, lay, a[0]).Some? {
        WriteConcat(WriteEvent(w, lay, a[0]).value, lay, a[1..], b);
      }
    }
  }

  lemma WriteOne(w: Page, lay: Layout, e: Event)
    ensures WriteAll(w, lay, [e]) == WriteEvent(w, lay, e)
  {
    assert [e][1..] == [];
  }

  /** r is w with more text put at its end and one more value counted at its top level. */
  ghost predicate Extends(w: Page, r: Option<Page>, lay: Layout, text: bytes, rest: bytes) {
    && r.Some?
    && r.value.levels == Counted(w.levels)
    && (r.value.hasRoot <==> w.hasRoot || w.levels == [])
    && r.value.os + rest == w.os + (Lead(w.levels, lay) + text)
  }

  lemma {:induction false} QuotedSplits(s: bytes, rest: bytes)
    ensures EscapedThen(s, []) + rest == EscapedThen(s, rest)
    ensures QuotedThen(s, []) + rest == QuotedThen(s, rest)
    decreases |s|
  {
    if s == [] {
      assert [QUOTE] + [] + rest == [QUOTE] + rest;
    } else {
      QuotedSplits(s[1..], rest);
      assert EscapeByte(s[0]) + EscapedThen(s[1..], []) + rest == EscapeByte(s[0]) + (EscapedThen(s[1..], []) + rest);
    }
    assert [QUOTE] + EscapedThen(s, []) + rest == [QUOTE] + (EscapedThen(s, []) + rest);
  }

  lemma ScalarExtends(w: Page, lay: Layout, isString: bool, s: bytes, rest: bytes)
    requires MayWrite(w, isString)
    ensures Extends(w, WriteScalar(w, lay, isString, s), lay, s + rest, rest)
  {
    assert w.os + Lead(w.levels, lay) + s + rest == w.os + (Lead(w.levels, lay) + (s + rest));
  }

  lemma ScalarWritten(w: Page, lay: Layout, v: Value, src: Source, rest: bytes)
    requires WellFormed(v) && !v.ArrayValue? && !v.ObjectValue? && MayWrite(w, false)
    ensures Extends(w, WriteAll(w, lay, Events(v, src)), lay, TextThen(v, lay, |w.levels|, rest), rest)
  {
    hide Extends, WriteScalar, Lead, IntegerText, QuotedThen;
    WriteOne(w, lay, Events(v, src)[0]);
    match v
    case NullValue => ScalarExtends(w, lay, false, NULL_TEXT, rest);
    case BoolValue(b) => ScalarExtends(w, lay, false, if b then TRUE_TEXT else FALSE_TEXT, rest);
    case NumberValue(n, _) => ScalarExtends(w, lay, false, IntegerText(n), rest);
    case DoubleValue(literal) => ScalarExtends(w, lay, false, literal, rest);
    case StringValue(s) =>
      QuotedSplits(s, rest);
      ScalarExtends(w, lay, true, QuotedThen(s, []), rest);
  }

  /** The container at the top level, of the given kind and count. */
  function Inside(w: Page, inArray: bool, count: nat): seq<Level> {
    Counted(w.levels) + [Level(count, inArray)]
  }

  lemma LeadIsLeadThen(levels: seq<Level>, inArray: bool, count: nat, lay: Layout, rest: bytes)
    requires inArray || count % 2 == 0
    ensures Lead(levels + [Level(count, inArray)], lay) + rest == LeadThen(count == 0, lay, |levels| + 1, rest)
  {
    var ls := levels + [Level(count, inArray)];
    assert TopLevel(ls) == Level(count, inArray);
    if count > 0 {
      assert [COMMA] + Gap(lay, |ls|) + rest == [COMMA] + (Gap(lay, |ls|) + rest);
    } else {
      assert [] + Gap(lay, |ls|) + rest == Gap(lay, |ls|) + rest;
    }
  }

  lemma ColonIsColonThen(levels: seq<Level>, count: nat, lay: Layout, rest: bytes)
    requires count % 2 == 1
    ensures Lead(levels + [Level(count, false)], lay) + rest == ColonThen(lay, rest)
  {
    assert TopLevel(levels + [Level(count, false)]) == Level(count, false);
    assert [COLON] + ColonGap(lay) + rest == [COLON] + (ColonGap(lay) + rest);
  }

  lemma CountedInside(w: Page, inArray: bool, count: nat)
    ensures Counted(Inside(w, inArray, count)) == Inside(w, inArray, count + 1)
    ensures TopLevel(Inside(w, inArray, count)) == Level(count, inArray)
    ensures Popped(Inside(w, inArray, count)) == Counted(w.levels)
    ensures |Inside(w, inArray, count)| == |w.levels| + 1
  {
  }

  /** The closing event of a container holding count values. */
  lemma CloseWritten(w: Page, w2: Page, lay: Layout, inArray: bool, count: nat, e: Event, rest: bytes)
    requires w2.levels == Inside(w, inArray, count)
    requires if inArray then e.EndArray? else e.EndObject?
    ensures var r := WriteEvent(w2, lay, e);
            && r.Some?
            && r.value.levels == Counted(w.levels)
            && r.value.hasRoot == w2.hasRoot
            && r.value.os + rest
               == w2.os + CloseThen(count == 0, lay, |w.levels|, if inArray then RBRACKET else RBRACE, rest)
  {
    CountedInside(w, inArray, count);
    var close := if inArray then RBRACKET else RBRACE;
    var gap := if count == 0 then [] else Gap(lay, |w.levels|);
    assert w2.os + (gap + [close]) + rest == w2.os + (gap + ([close] + rest));
    assert [] + ([close] + rest) == [close] + rest;
  }

  /** The opening event of a container. */
  lemma OpenWritten(w: Page, lay: Layout, inArray: bool, rest: bytes)
    requires MayWrite(w, false)
    ensures var r := WriteEvent(w, lay, if inArray then StartArray else StartObject);
            && r.Some?
            && r.value.levels == Inside(w, inArray, 0)
            && (r.value.hasRoot <==> w.hasRoot || w.levels == [])
            && r.value.os + rest == w.os + (Lead(w.levels, lay) + ([if inArray then LBRACKET else LBRACE] + rest))
  {
    var open := [if inArray then LBRACKET else LBRACE];
    assert w.os + Lead(w.levels, lay) + open + rest == w.os + (Lead(w.levels, lay) + (open + rest));
  }

  /** The events of a value, from either source, make a writer put the value's text, behind whatever
      Prefix owes its place. */
  lemma {:induction false} ValueWritten(w: Page, lay: Layout, v: Value, src: Source, rest: bytes)
    requires WellFormed(v) && MayWrite(w, false)
    ensures Extends(w, WriteAll(w, lay, Events(v, src)), lay, TextThen(v, lay, |w.levels|, rest), rest)
    decreases v, 2
  {
    hide Extends, WriteAll, WriteEvent, MayWrite, Lead;
    match v
    case ArrayValue(vs) => ArrayWritten(w, lay, vs, src, rest);
    case ObjectValue(ms) => ObjectWritten(w, lay, ms, src, rest);
    case _ => ScalarWritten(w, lay, v, src, rest);
  }

  lemma {:induction false} ArrayWritten(w: Page, lay: Layout, vs: seq<Value>, src: Source, rest: bytes)
    requires (forall i | 0 <= i < |vs| :: WellFormed(vs[i])) && MayWrite(w, false)
    ensures Extends(w, WriteAll(w, lay, Events(ArrayValue(vs), src)), lay,
                    TextThen(ArrayValue(vs), lay, |w.levels|, rest), rest)
    decreases vs, 1
  {
    hide WriteAll, WriteEvent, MayWrite, Lead, WellFormed, ElementsThen, CloseThen;
    var close := CloseThen(vs == [], lay, |w.levels|, RBRACKET, rest);
    var body := ElementsThen(vs, lay, |w.levels| + 1, true, close);
    OpenWritten(w, lay, true, body);
    var w1 := WriteEvent(w, lay, StartArray).value;
    ElementsWritten(w, w1, lay, vs, src, 0, close);
    var w2 := WriteAll(w1, lay, ElementEvents(vs, src)).value;
    CloseWritten(w, w2, lay, true, |vs|, EndArray(|vs|), rest);
    WriteThree(w, w1, w2, lay, StartArray, ElementEvents(vs, src), EndArray(|vs|));
  }

  lemma WriteThree(w: Page, w1: Page, w2: Page, lay: Layout, open: Event, body: seq<Event>, close: Event)
    requires WriteEvent(w, lay, open) == Some(w1) && WriteAll(w1, lay, body) == Some(w2)
    ensures WriteAll(w, lay, [open] + body + [close]) == WriteEvent(w2, lay, close)
  {
    hide WriteEvent;
    WriteOne(w, lay, open);
    WriteOne(w2, lay, close);
    WriteConcat(w, lay, [open], body);
    WriteConcat(w, lay, [open] + body, [close]);
  }

  /** Elements from the count-th on, w being the page before the array. */
  lemma {:induction false} ElementsWritten(w: Page, w1: Page, lay: Layout, vs: seq<Value>, src: Source, count: nat,
                                           rest: bytes)
    requires forall i | 0 <= i < |vs| :: WellFormed(vs[i])
    requires w1.levels == Inside(w, true, count)
    ensures var r := WriteAll(w1, lay, ElementEvents(vs, src));
            && r.Some?
            && r.value.levels == Inside(w, true, count + |vs|)
            && r.value.hasRoot == w1.hasRoot
            && r.value.os + rest == w1.os + ElementsThen(vs, lay, |w.levels| + 1, count == 0, rest)
    decreases vs, 0
  {
    hide WellFormed, Lead, Inside, LeadThen, Counted;
    CountedInside(w, true, count);
    if vs != [] {
      var rest1 := ElementsThen(vs[1..], lay, |w.levels| + 1, false, rest);
      var text := TextThen(vs[0], lay, |w.levels| + 1, rest1);
      ValueWritten(w1, lay, vs[0], src, rest1);
      var w2 := WriteAll(w1, lay, Events(vs[0], src)).value;
      ElementsWritten(w, w2, lay, vs[1..], src, count + 1, rest);
      WriteConcat(w1, lay, Events(vs[0], src), ElementEvents(vs[1..], src));
      assert Lead(w1.levels, lay) + text == LeadThen(count == 0, lay, |w.levels| + 1, text) by {
        LeadInside(w, true, count, lay, text);
      }
    }
  }

  lemma LeadInside(w: Page, inArray: bool, count: nat, lay: Layout, rest: bytes)
    requires inArray || count % 2 == 0
    ensures Lead(Inside(w, inArray, count), lay) + rest == LeadThen(count == 0, lay, |w.levels| + 1, rest)
  {
    CountedInside(w, inArray, count);
    LeadIsLeadThen(Counted(w.levels), inArray, count, lay, rest);
    hide Lead, LeadThen, Counted;
  }

  lemma {:induction false} ObjectWritten(w: Page, lay: Layout, ms: seq<Member>, src: Source, rest: bytes)
    requires (forall i | 0 <= i < |ms| :: WellFormed(ms[i].value)) && MayWrite(w, false)
    ensures Extends(w, WriteAll(w, lay, Events(ObjectValue(ms), src)), lay,
                    TextThen(ObjectValue(ms), lay, |w.levels|, rest), rest)
    decreases ms, 1
  {
    hide WriteAll, WriteEvent, MayWrite, Lead, WellFormed, MembersThen, CloseThen;
    var close := CloseThen(ms == [], lay, |w.levels|, RBRACE, rest);
    var body := MembersThen(ms, lay, |w.levels| + 1, true, close);
    OpenWritten(w, lay, false, body);
    var w1 := WriteEvent(w, lay, StartObject).value;
    MembersWritten(w, w1, lay, ms, src, 0, close);
    var w2 := WriteAll(w1, lay, MemberEvents(ms, src)).value;
    CloseWritten(w, w2, lay, false, 2 * |ms|, EndObject(|ms|), rest);
    WriteThree(w, w1, w2, lay, StartObject, MemberEvents(ms, src), EndObject(|ms|));
  }

  /** A member's name, count values being written in its object. */
  lemma NameWritten(w: Page, w1: Page, lay: Layout, name: bytes, count: nat, rest: bytes)
    requires w1.levels == Inside(w, false, count) && count % 2 == 0
    ensures var r := WriteEvent(w1, lay, Key(name));
            && r.Some?
            && r.value.levels == Inside(w, false, count + 1)
            && r.value.hasRoot == w1.hasRoot
            && r.value.os + rest == w1.os + LeadThen(count == 0, lay, |w.levels| + 1, QuotedThen(name, rest))
  {
    CountedInside(w, false, count);
    QuotedSplits(name, rest);
    ScalarExtends(w1, lay, true, QuotedThen(name, []), rest);
    LeadInside(w, false, count, lay, QuotedThen(name, rest));
  }

  /** A member's value, count values being written in its object. */
  lemma {:induction false} MemberValueWritten(w: Page, w1: Page, lay: Layout, v: Value, src: Source, count: nat,
                                              rest: bytes)
    requires WellFormed(v) && w1.levels == Inside(w, false, count) && count % 2 == 1
    ensures var r := WriteAll(w1, lay, Events(v, src));
            && r.Some?
            && r.value.levels == Inside(w, false, count + 1)
            && r.value.hasRoot == w1.hasRoot
            && r.value.os + rest == w1.os + ColonThen(lay, TextThen(v, lay, |w.levels| + 1, rest))
    decreases v, 3
  {
    hide WellFormed, Lead, WriteAll, TextThen, ColonThen;
    CountedInside(w, false, count);
    ValueWritten(w1, lay, v, src, rest);
    ColonIsColonThen(Counted(w.levels), count, lay, TextThen(v, lay, |w.levels| + 1, rest));
  }

  /** Members with count values written before them, w being the page before the object. */
  lemma {:induction false} MembersWritten(w: Page, w1: Page, lay: Layout, ms: seq<Member>, src: Source, count: nat,
                                          rest: bytes)
    requires forall i | 0 <= i < |ms| :: WellFormed(ms[i].value)
    requires w1.levels == Inside(w, false, count) && count % 2 == 0
    ensures var r := WriteAll(w1, lay, MemberEvents(ms, src));
            && r.Some?
            && r.value.levels == Inside(w, false, count + 2 * |ms|)
            && r.value.hasRoot == w1.hasRoot
            && r.value.os + rest == w1.os + MembersThen(ms, lay, |w.levels| + 1, count == 0, rest)
    decreases ms, 0
  {
    hide WellFormed, WriteEvent, LeadThen, ColonThen, TextThen, QuotedThen, Inside;
    if ms != [] {
      var name, v := ms[0].name, ms[0].value;
      var rest2 := MembersThen(ms[1..], lay, |w.levels| + 1, false, rest);
      var rest1 := ColonThen(lay, TextThen(v, lay, |w.levels| + 1, rest2));
      NameWritten(w, w1, lay, name, count, rest1);
      var w2 := WriteEvent(w1, lay, Key(name)).value;
      MemberValueWritten(w, w2, lay, v, src, count + 1, rest2);
      var w3 := WriteAll(w2, lay, Events(v, src)).value;
      MembersWritten(w, w3, lay, ms[1..], src, count + 2, rest);
      WriteOne(w1, lay, Key(name));
      WriteConcat(w1, lay, [Key(name)], Events(v, src));
      WriteConcat(w1, lay, [Key(name)] + Events(v, src), MemberEvents(ms[1..], src));
    }
  }

  const BLANK: Page := Page([], [], false)

  /** On a fresh writer the events of a value give exactly its text, complete. */
  lemma DocumentWritten(lay: Layout, v: Value, src: Source)
    requires WellFormed(v)
    ensures WriteAll(BLANK, lay, Events(v, src)) == Some(Page(Text(v, lay), [], true))
  {
    ValueWritten(BLANK, lay, v, src, []);
    var r := WriteAll(BLANK, lay, Events(v, src));
    assert r.value.os == r.value.os + [];
    assert [] + (Lead([], lay) + Text(v, lay)) == Text(v, lay);
  }
}
