/** The DOM: values, the events Accept sends for one, and the document's handler stack that builds one. */
module JsonDom {
  import opened Bytes
  import opened JsonEvents
  import opened JsonGrammar
  import opened Options

  /** Which integer types a number is flagged to fit. */
  datatype Flags = Flags(isInt: bool, isUint: bool, isInt64: bool, isUint64: bool)

  /** A double is kept as its literal. */
  datatype Value =
    | NullValue
    | BoolValue(b: bool)
    | NumberValue(n: int, flags: Flags)
    | DoubleValue(literal: bytes)
    | StringValue(s: bytes)
    | ObjectValue(members: seq<Member>)
    | ArrayValue(elements: seq<Value>)

  datatype Member = Member(name: bytes, value: Value)

  // ---------------------------------------------------------------- integer constructors

  /** The test !(u & mask) where mask covers the bits from k up. */
  predicate ClearFrom(u: nat, twoToK: nat)
    requires twoToK > 0
  {
    u / twoToK == 0
  }

  function OfInt(i: int): Value
    requires -TWO31 <= i < TWO31
  {
    NumberValue(i, Flags(true, i >= 0, true, i >= 0))
  }

  function OfUint(u: int): Value
    requires 0 <= u < TWO32
  {
    NumberValue(u, Flags(ClearFrom(u, TWO31), true, true, true))
  }

  function OfInt64(i64: int): Value
    requires -TWO63 <= i64 < TWO63
  {
    NumberValue(i64,
                if i64 >= 0 then Flags(ClearFrom(i64, TWO31), ClearFrom(i64, TWO32), true, true)
                else Flags(i64 >= -TWO31, false, true, false))
  }

  function OfUint64(u64: int): Value
    requires 0 <= u64 < TWO64
  {
    NumberValue(u64, Flags(ClearFrom(u64, TWO31), ClearFrom(u64, TWO32), ClearFrom(u64, TWO63), true))
  }

  /** The flags that say exactly which types hold n. */
  function Fitting(n: int): Flags {
    Flags(-TWO31 <= n < TWO31, 0 <= n < TWO32, -TWO63 <= n < TWO63, 0 <= n < TWO64)
  }

  function Integer(n: int): Value {
    NumberValue(n, Fitting(n))
  }

  /** Whichever constructor builds a number, its flags depend on the value alone: each is set exactly
      when its type holds the value. */
  lemma ConstructorsAgree(n: int)
    ensures -TWO31 <= n < TWO31 ==> OfInt(n) == Integer(n)
    ensures 0 <= n < TWO32 ==> OfUint(n) == Integer(n)
    ensures -TWO63 <= n < TWO63 ==> OfInt64(n) == Integer(n)
    ensures 0 <= n < TWO64 ==> OfUint64(n) == Integer(n)
  {
  }

  /** Every number in v carries fitting flags and a 64-bit value. */
  predicate WellFormed(v: Value) {
    match v
    case NumberValue(n, flags) => -TWO63 <= n < TWO64 && flags == Fitting(n)
    case ArrayValue(vs) => forall i | 0 <= i < |vs| :: WellFormed(vs[i])
    case ObjectValue(ms) => forall i | 0 <= i < |ms| :: WellFormed(ms[i].value)
    case _ => true
  }

  // ---------------------------------------------------------------- events of a value

  /** Where the events of a value come from: Accept picks a number's event by its flags, the reader
      by its sign and size. */
  datatype Source = FromDom | FromText

  function NumberEvent(src: Source, n: int, flags: Flags): Event {
    match src
    case FromDom =>
      if flags.isInt then Int(n)
      else if flags.isUint then Uint(n)
      else if flags.isInt64 then Int64(n)
      else if flags.isUint64 then Uint64(n)
      else Double([])
    case FromText =>
      IntegerEvent(n < 0, if n < 0 then -n else n, [])
  }

  function Events(v: Value, src: Source): seq<Event>
    decreases v, 1
  {
    match v
    case NullValue => [Null]
    case BoolValue(b) => [Bool(b)]
    case NumberValue(n, flags) => [NumberEvent(src, n, flags)]
    case DoubleValue(literal) => [Double(literal)]
    case StringValue(s) => [String(s)]
    case ArrayValue(vs) => [StartArray] + ElementEvents(vs, src) + [EndArray(|vs|)]
    case ObjectValue(ms) => [StartObject] + MemberEvents(ms, src) + [EndObject(|ms|)]
  }

  function ElementEvents(vs: seq<Value>, src: Source): seq<Event>
    decreases vs, 0
  {
    if vs == [] then [] else Events(vs[0], src) + ElementEvents(vs[1..], src)
  }

  function MemberEvents(ms: seq<Member>, src: Source): seq<Event>
    decreases ms, 0
  {
    if ms == [] then [] else [Key(ms[0].name)] + Events(ms[0].value, src) + MemberEvents(ms[1..], src)
  }

  /** The event Accept sends for an integer, and the one the reader does: the first type, of those each tries in its
      order, that holds it. */
  lemma NumberSent(n: int)
    requires -0x8000_0000_0000_0000 <= n < 0x1_0000_0000_0000_0000
    ensures Events(Integer(n), FromDom)
         == [if -0x8000_0000 <= n < 0x8000_0000 then Int(n)
             else if 0 <= n < 0x1_0000_0000 then Uint(n)
             else if n < 0x8000_0000_0000_0000 then Int64(n)
             else Uint64(n)]
    ensures Events(Integer(n), FromText)
         == [if n < -0x8000_0000 then Int64(n)
             else if n < 0 then Int(n)
             else if n < 0x1_0000_0000 then Uint(n)
             else Uint64(n)]
  {
  }

  // ---------------------------------------------------------------- the document's stack

  /** Members stand on the stack as a name under a value. */
  function Pairs(ms: seq<Member>): (vs: seq<Value>)
    ensures |vs| == 2 * |ms|
  {
    if ms == [] then [] else [StringValue(ms[0].name), ms[0].value] + Pairs(ms[1..])
  }

  predicate Paired(vs: seq<Value>)
    decreases |vs|
  {
    |vs| % 2 == 0 && (vs != [] ==> vs[0].StringValue? && Paired(vs[2..]))
  }

  function Members(vs: seq<Value>): (ms: seq<Member>)
    requires Paired(vs)
    ensures 2 * |ms| == |vs|
    decreases |vs|
  {
    if vs == [] then [] else [Member(vs[0].s, vs[1])] + Members(vs[2..])
  }

  lemma {:induction false} PairsAreMembers(ms: seq<Member>)
    ensures Paired(Pairs(ms)) && Members(Pairs(ms)) == ms
  {
    if ms != [] {
      PairsAreMembers(ms[1..]);
      assert Pairs(ms)[2..] == Pairs(ms[1..]);
    }
  }

  /** A handler call on the document's stack; None where Pop or Top would leave the stack. */
  function Handle(stack: seq<Value>, e: Event): Option<seq<Value>> {
    match e
    case Null => Some(stack + [NullValue])
    case Bool(b) => Some(stack + [BoolValue(b)])
    case Int(i) => if -TWO31 <= i < TWO31 then Some(stack + [OfInt(i)]) else None
    case Uint(u) => if 0 <= u < TWO32 then Some(stack + [OfUint(u)]) else None
    case Int64(i64) => if -TWO63 <= i64 < TWO63 then Some(stack + [OfInt64(i64)]) else None
    case Uint64(u64) => if 0 <= u64 < TWO64 then Some(stack + [OfUint64(u64)]) else None
    case Double(literal) => Some(stack + [DoubleValue(literal)])
    case String(s) => Some(stack + [StringValue(s)])
    case Key(s) => Some(stack + [StringValue(s)])
    case StartObject => Some(stack + [ObjectValue([])])
    case StartArray => Some(stack + [ArrayValue([])])
    case EndObject(n) =>
      if |stack| < 2 * n + 1 || !Paired(stack[|stack| - 2 * n..]) then None
      else Some(stack[..|stack| - 2 * n - 1] + [ObjectValue(Members(stack[|stack| - 2 * n..]))])
    case EndArray(n) =>
      if |stack| < n + 1 then None
      else Some(stack[..|stack| - n - 1] + [ArrayValue(stack[|stack| - n..])])
  }

  function HandleAll(stack: seq<Value>, es: seq<Event>): Option<seq<Value>>
    decreases |es|
  {
    if es == [] then Some(stack)
    else match Handle(stack, es[0])
      case None => None
      case Some(stack') => HandleAll(stack', es[1..])
  }

  lemma {:induction false} HandleConcat(stack: seq<Value>, a: seq<Event>, b: seq<Event>)
    ensures HandleAll(stack, a + b)
         == match HandleAll(stack, a) case None => None case Some(stack') => HandleAll(stack', b)
    decreases |a|
  {
    if a == [] {
      assert a + b == b;
    } else {
      assert (a + b)[0] == a[0] && (a + b)[1..] == a[1..] + b;
      if Handle(stack, a[0]).Some? {
        HandleConcat(Handle(stack, a[0]).value, a[1..], b);
      }
    }
  }

  lemma HandleOne(stack: seq<Value>, e: Event)
    ensures HandleAll(stack, [e]) == Handle(stack, e)
  {
    assert [e][1..] == [];
  }

  /** An opening event, a body and a closing event, each with what it leaves on the stack. */
  lemma HandleThree(s0: seq<Value>, open: Event, s1: seq<Value>, body: seq<Event>, s2: seq<Value>, close: Event,
                    s3: seq<Value>)
    requires Handle(s0, open) == Some(s1) && HandleAll(s1, body) == Some(s2) && Handle(s2, close) == Some(s3)
    ensures HandleAll(s0, [open] + body + [close]) == Some(s3)
  {
    HandleOne(s0, open);
    HandleConcat(s0, [open], body);
    HandleConcat(s0, [open] + body, [close]);
    HandleOne(s2, close);
  }

  /** The events of a value, from either source, put exactly that value on the stack. */
  lemma {:induction false} Builds(stack: seq<Value>, v: Value, src: Source)
    requires WellFormed(v)
    ensures HandleAll(stack, Events(v, src)) == Some(stack + [v])
    decreases v, 2
  {
    match v
    case ArrayValue(vs) =>
      hide Handle, HandleAll, Events;
      BuildsArray(stack, vs, src);
    case ObjectValue(ms) =>
      hide Handle, HandleAll, Events;
      BuildsObject(stack, ms, src);
    case NumberValue(n, _) =>
      hide HandleAll, Fitting, OfInt, OfInt64, OfUint, OfUint64;
      NumberHandled(stack, n, src);
      HandleOne(stack, Events(v, src)[0]);
    case _ =>
      hide HandleAll;
      HandleOne(stack, Events(v, src)[0]);
  }

  lemma NumberHandled(stack: seq<Value>, n: int, src: Source)
    requires -TWO63 <= n < TWO64
    ensures Handle(stack, NumberEvent(src, n, Fitting(n))) == Some(stack + [Integer(n)])
  {
    ConstructorsAgree(n);
  }

  lemma {:induction false} BuildsArray(stack: seq<Value>, vs: seq<Value>, src: Source)
    requires forall i | 0 <= i < |vs| :: WellFormed(vs[i])
    ensures HandleAll(stack, Events(ArrayValue(vs), src)) == Some(stack + [ArrayValue(vs)])
    decreases vs, 1
  {
    hide WellFormed, HandleAll, ElementEvents;
    var open := stack + [ArrayValue([])];
    BuildsElements(open, vs, src);
    assert (open + vs)[..|stack|] == stack && (open + vs)[|stack| + 1..] == vs;
    HandleThree(stack, StartArray, open, ElementEvents(vs, src), open + vs, EndArray(|vs|), stack + [ArrayValue(vs)]);
  }

  lemma {:induction false} BuildsObject(stack: seq<Value>, ms: seq<Member>, src: Source)
    requires forall i | 0 <= i < |ms| :: WellFormed(ms[i].value)
    ensures HandleAll(stack, Events(ObjectValue(ms), src)) == Some(stack + [ObjectValue(ms)])
    decreases ms, 1
  {
    hide WellFormed, HandleAll, MemberEvents, Pairs, Paired, Members;
    var open := stack + [ObjectValue([])];
    BuildsMembers(open, ms, src);
    PairsAreMembers(ms);
    assert (open + Pairs(ms))[..|stack|] == stack && (open + Pairs(ms))[|stack| + 1..] == Pairs(ms);
    HandleThree(stack, StartObject, open, MemberEvents(ms, src), open + Pairs(ms), EndObject(|ms|),
                stack + [ObjectValue(ms)]);
  }

  lemma {:induction false} BuildsElements(stack: seq<Value>, vs: seq<Value>, src: Source)
    requires forall i | 0 <= i < |vs| :: WellFormed(vs[i])
    ensures HandleAll(stack, ElementEvents(vs, src)) == Some(stack + vs)
    decreases vs, 0
  {
    if vs == [] {
      assert stack + vs == stack;
    } else {
      Builds(stack, vs[0], src);
      BuildsElements(stack + [vs[0]], vs[1..], src);
      HandleConcat(stack, Events(vs[0], src), ElementEvents(vs[1..], src));
      assert stack + [vs[0]] + vs[1..] == stack + vs;
    }
  }

  /** A name and then the events of its value leave both on the stack. */
  lemma MemberHandled(stack: seq<Value>, name: bytes, v: Value, es: seq<Event>, rest: seq<Event>)
    requires HandleAll(stack + [StringValue(name)], es) == Some(stack + [StringValue(name)] + [v])
    ensures HandleAll(stack, [Key(name)] + es + rest) == HandleAll(stack + [StringValue(name)] + [v], rest)
  {
    HandleOne(stack, Key(name));
    hide HandleAll;
    HandleConcat(stack, [Key(name)], es);
    HandleConcat(stack, [Key(name)] + es, rest);
  }

  lemma {:induction false} BuildsMembers(stack: seq<Value>, ms: seq<Member>, src: Source)
    requires forall i | 0 <= i < |ms| :: WellFormed(ms[i].value)
    ensures HandleAll(stack, MemberEvents(ms, src)) == Some(stack + Pairs(ms))
    decreases ms, 0
  {
    if ms == [] {
      assert stack + Pairs(ms) == stack;
    } else {
      var k, v := StringValue(ms[0].name), ms[0].value;
      var es, rest := Events(v, src), MemberEvents(ms[1..], src);
      assert MemberEvents(ms, src) == [Key(ms[0].name)] + es + rest;
      assert Pairs(ms) == [k, v] + Pairs(ms[1..]);
      hide Handle, HandleAll, Events, MemberEvents, Pairs, WellFormed;
      Builds(stack + [k], v, src);
      BuildsMembers(stack + [k] + [v], ms[1..], src);
      MemberHandled(stack, ms[0].name, v, es, rest);
      assert stack + [k] + [v] + Pairs(ms[1..]) == stack + ([k, v] + Pairs(ms[1..]));
    }
  }
}
