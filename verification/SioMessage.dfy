/** Socket.IO messages, and their two-way translation to a DOM with numbered binary attachments. */
module SioMessage {
  import opened Bytes
  import opened JsonGrammar
  import opened JsonDom
  import opened Options

  /** A message::ptr. Absent is the null pointer. An object's std::map is the sequence of its entries
      in iteration order. */
  datatype Message =
    | Absent
    | NullMessage
    | BoolMessage(b: bool)
    | IntMessage(n: int)
    | DoubleMessage(literal: bytes)
    | StringMessage(s: bytes)
    | BinaryMessage(data: bytes)
    | ArrayMessage(elements: seq<Message>)
    | ObjectMessage(entries: seq<Entry>)

  datatype Entry = Entry(key: bytes, value: Message)

  // ---------------------------------------------------------------- std::map<string, message::ptr>

  /** The order of std::string. */
  predicate KeyLess(a: bytes, b: bytes) {
    b != [] && (a == [] || a[0] < b[0] || (a[0] == b[0] && KeyLess(a[1..], b[1..])))
  }

  predicate Ascending(es: seq<Entry>) {
    forall i, j | 0 <= i < j < |es| :: KeyLess(es[i].key, es[j].key)
  }

  /** get_map()[key] = value. */
  function Put(es: seq<Entry>, key: bytes, value: Message): seq<Entry> {
    if es == [] || KeyLess(key, es[0].key) then [Entry(key, value)] + es
    else if key == es[0].key then [Entry(key, value)] + es[1..]
    else [es[0]] + Put(es[1..], key, value)
  }

  function Lookup(es: seq<Entry>, key: bytes): Option<Message> {
    if es == [] then None else if es[0].key == key then Some(es[0].value) else Lookup(es[1..], key)
  }

  lemma {:induction false} KeyOrder(a: bytes, b: bytes)
    ensures !(KeyLess(a, b) && KeyLess(b, a))
    ensures a == b ==> !KeyLess(a, b)
    ensures a != b ==> KeyLess(a, b) || KeyLess(b, a)
  {
    if a != [] && b != [] && a[0] == b[0] {
      KeyOrder(a[1..], b[1..]);
      assert a == [a[0]] + a[1..] && b == [b[0]] + b[1..];
    }
  }

  lemma {:induction false} KeyTransitive(a: bytes, b: bytes, c: bytes)
    requires KeyLess(a, b) && KeyLess(b, c)
    ensures KeyLess(a, c)
  {
    if a != [] && a[0] == b[0] && b[0] == c[0] {
      KeyTransitive(a[1..], b[1..], c[1..]);
    }
  }

  /** Every key of es comes after key. */
  predicate Above(key: bytes, es: seq<Entry>) {
    forall i | 0 <= i < |es| :: KeyLess(key, es[i].key)
  }

  lemma AscendingCons(e: Entry, es: seq<Entry>)
    ensures Ascending([e] + es) <==> Above(e.key, es) && Ascending(es)
  {
    hide KeyLess;
    var all := [e] + es;
    assert forall i | 0 <= i < |es| :: all[i + 1] == es[i];
    if Ascending(all) {
      forall i, j | 0 <= i < j < |es| ensures KeyLess(es[i].key, es[j].key) {
        assert KeyLess(all[i + 1].key, all[j + 1].key);
      }
      forall i | 0 <= i < |es| ensures KeyLess(e.key, es[i].key) {
        assert KeyLess(all[0].key, all[i + 1].key);
      }
    }
  }

  lemma AboveAll(key: bytes, e: Entry, es: seq<Entry>)
    requires KeyLess(key, e.key) && Ascending([e] + es)
    ensures Above(key, [e] + es)
  {
    AscendingCons(e, es);
    forall i | 0 <= i < |es| ensures KeyLess(key, es[i].key) {
      KeyTransitive(key, e.key, es[i].key);
    }
  }

  /** Put is a map update that keeps the entries in order. */
  lemma {:induction false} PutUpdates(es: seq<Entry>, key: bytes, value: Message)
    requires Ascending(es)
    ensures Ascending(Put(es, key, value))
    ensures forall k :: Lookup(Put(es, key, value), k) == if k == key then Some(value) else Lookup(es, k)
    ensures forall low | Above(low, es) && KeyLess(low, key) :: Above(low, Put(es, key, value))
  {
    hide KeyLess, Ascending;
    if es == [] {
      AscendingCons(Entry(key, value), []);
    } else {
      var e, rest := es[0], es[1..];
      assert es == [e] + rest;
      AscendingCons(e, rest);
      KeyOrder(key, e.key);
      if KeyLess(key, e.key) {
        AboveAll(key, e, rest);
        AscendingCons(Entry(key, value), es);
        assert Put(es, key, value)[1..] == es;
      } else if key == e.key {
        AscendingCons(Entry(key, value), rest);
        assert Put(es, key, value)[1..] == rest;
      } else {
        PutUpdates(rest, key, value);
        assert Put(es, key, value)[1..] == Put(rest, key, value);
        AscendingCons(e, Put(rest, key, value));
      }
    }
  }

  lemma {:induction false} PutLast(es: seq<Entry>, key: bytes, value: Message)
    requires forall i | 0 <= i < |es| :: KeyLess(es[i].key, key)
    ensures Put(es, key, value) == es + [Entry(key, value)]
  {
    if es != [] {
      KeyOrder(es[0].key, key);
      PutLast(es[1..], key, value);
    }
  }

  // ---------------------------------------------------------------- message to DOM

  /** "_placeholder" and "num". */
  const PLACEHOLDER: bytes := [95, 112, 108, 97, 99, 101, 104, 111, 108, 100, 101, 114]
  const NUM: bytes := [110, 117, 109]

  /** The cast of a size_t to int. */
  function ToInt(n: nat): (i: int)
    ensures -TWO31 <= i < TWO31
    ensures n < TWO31 ==> i == n
  {
    var low := n % TWO32;
    if low < TWO31 then low else low - TWO32
  }

  /** The binary values of a message, in traversal order. */
  function Attachments(m: Message): seq<bytes>
    decreases m, 1
  {
    match m
    case BinaryMessage(data) => [data]
    case ArrayMessage(ms) => ElementAttachments(ms)
    case ObjectMessage(es) => EntryAttachments(es)
    case _ => []
  }

  function ElementAttachments(ms: seq<Message>): seq<bytes>
    decreases ms, 0
  {
    if ms == [] then [] else Attachments(ms[0]) + ElementAttachments(ms[1..])
  }

  function EntryAttachments(es: seq<Entry>): seq<bytes>
    decreases es, 0
  {
    if es == [] then [] else Attachments(es[0].value) + EntryAttachments(es[1..])
  }

  /** No null pointer inside, integers of 64 bits, and maps as maps are. */
  predicate Sendable(m: Message) {
    match m
    case Absent => false
    case IntMessage(n) => -TWO63 <= n < TWO63
    case ArrayMessage(ms) => forall i | 0 <= i < |ms| :: Sendable(ms[i])
    case ObjectMessage(es) => Ascending(es) && forall i | 0 <= i < |es| :: Sendable(es[i].value)
    case _ => true
  }

  function Placeholder(num: nat): Value {
    ObjectValue([Member(PLACEHOLDER, BoolValue(true)), Member(NUM, OfInt(ToInt(num)))])
  }

  /** The DOM of a message when base attachments stand before its own. */
  function Dom(m: Message, base: nat): Value
    requires Sendable(m)
    decreases m, 1
  {
    match m
    case NullMessage => NullValue
    case BoolMessage(b) => BoolValue(b)
    case IntMessage(n) => OfInt64(n)
    case DoubleMessage(literal) => DoubleValue(literal)
    case StringMessage(s) => StringValue(s)
    case BinaryMessage(_) => Placeholder(base)
    case ArrayMessage(ms) => ArrayValue(ElementDoms(ms, base))
    case ObjectMessage(es) => ObjectValue(EntryDoms(es, base))
  }

  function ElementDoms(ms: seq<Message>, base: nat): seq<Value>
    requires forall i | 0 <= i < |ms| :: Sendable(ms[i])
    decreases ms, 0
  {
    if ms == [] then []
    else [Dom(ms[0], base)] + ElementDoms(ms[1..], base + |Attachments(ms[0])|)
  }

  function EntryDoms(es: seq<Entry>, base: nat): seq<Member>
    requires forall i | 0 <= i < |es| :: Sendable(es[i].value)
    decreases es, 0
  {
    if es == [] then []
    else [Member(es[0].key, Dom(es[0].value, base))] + EntryDoms(es[1..], base + |Attachments(es[0].value)|)
  }

  /** A binary frame: the byte of frame_message, then the data. */
  const FRAME_MESSAGE: byte := 4

  function Frames(atts: seq<bytes>): (fs: seq<bytes>)
    ensures |fs| == |atts|
    ensures atts == [] ==> fs == []
  {
    seq(|atts|, i requires 0 <= i < |atts| => [FRAME_MESSAGE] + atts[i])
  }

  lemma FramesConcat(a: seq<bytes>, b: seq<bytes>)
    ensures Frames(a + b) == Frames(a) + Frames(b)
  {
  }

  /** accept_message: the DOM of a message; its binary values are appended to the buffers. */
  method AcceptMessage(m: Message, before: seq<bytes>) returns (val: Value, buffers: seq<bytes>)
    requires Sendable(m)
    ensures val == Dom(m, |before|)
    ensures buffers == before + Frames(Attachments(m))
    decreases m, 1
  {
    buffers := before;
    match m {
      case NullMessage => val := NullValue;
      case BoolMessage(b) => val := BoolValue(b);
      case IntMessage(n) => val := OfInt64(n);
      case DoubleMessage(literal) => val := DoubleValue(literal);
      case StringMessage(s) => val := StringValue(s);
      case BinaryMessage(data) =>
        val := ObjectValue([Member(PLACEHOLDER, BoolValue(true))]);
        val := ObjectValue(val.members + [Member(NUM, OfInt(ToInt(|buffers|)))]);
        buffers := buffers + [[FRAME_MESSAGE] + data];
      case ArrayMessage(ms) =>
        var vs;
        vs, buffers := AcceptArray(ms, before);
        val := ArrayValue(vs);
      case ObjectMessage(es) =>
        var members;
        members, buffers := AcceptObject(es, before);
        val := ObjectValue(members);
    }
  }

  method AcceptArray(ms: seq<Message>, before: seq<bytes>) returns (vs: seq<Value>, buffers: seq<bytes>)
    requires forall i | 0 <= i < |ms| :: Sendable(ms[i])
    ensures vs == ElementDoms(ms, |before|)
    ensures buffers == before + Frames(ElementAttachments(ms))
    decreases ms, 0
  {
    hide Attachments, Dom, Sendable;
    vs, buffers := [], before;
    assert ms[0..] == ms;
    var i := 0;
    while i < |ms|
      invariant 0 <= i <= |ms|
      invariant vs + ElementDoms(ms[i..], |buffers|) == ElementDoms(ms, |before|)
      invariant buffers + Frames(ElementAttachments(ms[i..])) == before + Frames(ElementAttachments(ms))
    {
      assert ms[i..][1..] == ms[i + 1..];
      var child;
      child, buffers := AcceptMessage(ms[i], buffers);
      vs := vs + [child];
      i := i + 1;
    }
  }

  function EntryDom(e: Entry, base: nat): seq<Member>
    requires Sendable(e.value)
  {
    [Member(e.key, Dom(e.value, base))]
  }

  /** The members after entry i, whose own attachments stand from base on. */
  function RestDoms(es: seq<Entry>, i: nat, base: nat): seq<Member>
    requires i < |es| && forall k | 0 <= k < |es| :: Sendable(es[k].value)
  {
    EntryDoms(es[i + 1..], base + |Attachments(es[i].value)|)
  }

  /** One turn of the loop over a map: what is still to be appended, before and after. */
  lemma EntryStep(es: seq<Entry>, i: nat, base: nat)
    requires i <= |es| && forall k | 0 <= k < |es| :: Sendable(es[k].value)
    ensures i == |es| ==> EntryDoms(es[i..], base) == [] && EntryAttachments(es[i..]) == []
    ensures i < |es| ==> EntryDoms(es[i..], base) == EntryDom(es[i], base) + RestDoms(es, i, base)
    ensures i < |es| ==> EntryAttachments(es[i..]) == Attachments(es[i].value) + EntryAttachments(es[i + 1..])
  {
    if i < |es| {
      assert es[i..][1..] == es[i + 1..];
    }
  }

  method AcceptObject(es: seq<Entry>, before: seq<bytes>) returns (members: seq<Member>, buffers: seq<bytes>)
    requires forall i | 0 <= i < |es| :: Sendable(es[i].value)
    ensures members == EntryDoms(es, |before|)
    ensures buffers == before + Frames(EntryAttachments(es))
    decreases es, 0
  {
    hide Attachments, Dom, Sendable, EntryDoms, EntryAttachments, Frames;
    members, buffers := [], before;
    assert es[0..] == es;
    var i := 0;
    while i < |es|
      invariant 0 <= i <= |es|
      invariant members + EntryDoms(es[i..], |buffers|) == EntryDoms(es, |before|)
      invariant buffers + Frames(EntryAttachments(es[i..])) == before + Frames(EntryAttachments(es))
    {
      EntryStep(es, i, |buffers|);
      FramesConcat(Attachments(es[i].value), EntryAttachments(es[i + 1..]));
      var valueVal;
      valueVal, buffers := AcceptMessage(es[i].value, buffers);
      members := members + [Member(es[i].key, valueVal)];
      i := i + 1;
    }
    EntryStep(es, i, |buffers|);
    assert Frames([]) == [];
  }

  // ---------------------------------------------------------------- DOM to message

  function FindMember(ms: seq<Member>, name: bytes): Option<Value> {
    if ms == [] then None else if ms[0].name == name then Some(ms[0].value) else FindMember(ms[1..], name)
  }

  /** from_json; None where an assertion of the DOM fails. */
  function FromJson(v: Value, buffers: seq<bytes>): Option<Message>
    decreases v, 1
  {
    match v
    case NullValue => Some(NullMessage)
    case BoolValue(b) => Some(BoolMessage(b))
    case NumberValue(n, flags) => Some(if flags.isInt64 then IntMessage(n) else Absent)
    case DoubleValue(literal) => Some(DoubleMessage(literal))
    case StringValue(s) => Some(StringMessage(s))
    case ArrayValue(vs) => (
      match FromElements(vs, buffers)
      case None => None
      case Some(ms) => Some(ArrayMessage(ms)))
    case ObjectValue(ms) =>
      var mark := FindMember(ms, PLACEHOLDER);
      if mark.Some? && !mark.value.BoolValue? then None
      else if mark.Some? && mark.value.b then FromPlaceholder(ms, buffers)
      else
        match FromMembers(ms, buffers, [])
        case None => None
        case Some(es) => Some(ObjectMessage(es))
  }

  function FromPlaceholder(ms: seq<Member>, buffers: seq<bytes>): Option<Message> {
    match FindMember(ms, NUM)
    case Some(NumberValue(num, flags)) =>
      if !flags.isInt then None
      else if 0 <= num < ToInt(|buffers|) && num < |buffers| then Some(BinaryMessage(buffers[num]))
      else Some(Absent)
    case _ => None
  }

  function FromElements(vs: seq<Value>, buffers: seq<bytes>): (r: Option<seq<Message>>)
    ensures r.Some? ==> |r.value| == |vs|
    decreases vs, 0
  {
    if vs == [] then Some([])
    else
      var m := FromJson(vs[0], buffers);
      var ms := FromElements(vs[1..], buffers);
      if m.None? || ms.None? then None else Some([m.value] + ms.value)
  }

  function FromMembers(ms: seq<Member>, buffers: seq<bytes>, es: seq<Entry>): Option<seq<Entry>>
    decreases ms, 0
  {
    if ms == [] then Some(es)
    else
      match FromJson(ms[0].value, buffers)
      case None => None
      case Some(m) => FromMembers(ms[1..], buffers, Put(es, ms[0].name, m))
  }

  // ---------------------------------------------------------------- there and back

  /** No object is taken for a placeholder. */
  predicate Clean(m: Message) {
    match m
    case ArrayMessage(ms) => forall i | 0 <= i < |ms| :: Clean(ms[i])
    case ObjectMessage(es) =>
      AllClean(es) && Unmarked(es)
    case _ => true
  }

  predicate Unmarked(es: seq<Entry>) {
    forall i | 0 <= i < |es| && es[i].key == PLACEHOLDER :: es[i].value == BoolMessage(false)
  }

  predicate AllClean(es: seq<Entry>) {
    forall i | 0 <= i < |es| :: Clean(es[i].value)
  }

  /** The buffers hold the attachments of a message from base on. */
  predicate Carries(buffers: seq<bytes>, base: nat, atts: seq<bytes>) {
    base + |atts| <= |buffers| < TWO31 && buffers[base..base + |atts|] == atts
  }

  lemma CarriesSplit(buffers: seq<bytes>, base: nat, a: seq<bytes>, b: seq<bytes>)
    requires Carries(buffers, base, a + b)
    ensures Carries(buffers, base, a) && Carries(buffers, base + |a|, b)
  {
    var s := buffers[base..base + |a + b|];
    assert buffers[base..base + |a|] == s[..|a|] == a;
    assert buffers[base + |a|..base + |a| + |b|] == s[|a|..] == b;
  }

  /** from_json undoes accept_message exactly on the messages without a look-alike of a placeholder. */
  lemma {:induction false} Rebuilds(m: Message, base: nat, buffers: seq<bytes>)
    requires Sendable(m) && Carries(buffers, base, Attachments(m))
    ensures FromJson(Dom(m, base), buffers) == Some(m) <==> Clean(m)
    decreases m, 1
  {
    match m
    case BinaryMessage(data) =>
      var ms := Placeholder(base).members;
      assert PLACEHOLDER[0] != NUM[0];
      assert FindMember(ms, PLACEHOLDER) == Some(BoolValue(true));
      assert ms[1..][0] == ms[1] && FindMember(ms, NUM) == Some(OfInt(base));
      assert buffers[base..base + 1][0] == buffers[base];
    case ArrayMessage(ms) => RebuildsElements(ms, base, buffers);
    case ObjectMessage(es) => RebuildsObject(es, base, buffers);
    case _ =>
  }

  lemma {:induction false} RebuildsElements(ms: seq<Message>, base: nat, buffers: seq<bytes>)
    requires forall i | 0 <= i < |ms| :: Sendable(ms[i])
    requires Carries(buffers, base, ElementAttachments(ms))
    ensures FromElements(ElementDoms(ms, base), buffers) == Some(ms) <==> forall i | 0 <= i < |ms| :: Clean(ms[i])
    decreases ms, 0
  {
    hide Attachments, Dom, Sendable, FromJson, Clean, Carries;
    if ms != [] {
      CarriesSplit(buffers, base, Attachments(ms[0]), ElementAttachments(ms[1..]));
      var next := base + |Attachments(ms[0])|;
      Rebuilds(ms[0], base, buffers);
      RebuildsElements(ms[1..], next, buffers);
      assert ElementDoms(ms, base)[1..] == ElementDoms(ms[1..], next);
      assert ms == [ms[0]] + ms[1..];
      assert forall i | 0 < i < |ms| :: ms[i] == ms[1..][i - 1];
      assert forall i | 0 <= i < |ms[1..]| :: ms[1..][i] == ms[i + 1];
    }
  }

  /** Appending in key order keeps the whole list in order. */
  lemma PutNext(acc: seq<Entry>, es: seq<Entry>, m: Message)
    requires es != [] && Ascending(acc + es)
    ensures Put(acc, es[0].key, m) == acc + [Entry(es[0].key, m)]
    ensures Ascending(acc + [Entry(es[0].key, m)] + es[1..])
  {
    hide KeyLess;
    forall i | 0 <= i < |acc| ensures KeyLess(acc[i].key, es[0].key) {
      assert KeyLess((acc + es)[i].key, (acc + es)[|acc|].key);
    }
    PutLast(acc, es[0].key, m);
    var all := acc + [Entry(es[0].key, m)] + es[1..];
    forall i, j | 0 <= i < j < |all| ensures KeyLess(all[i].key, all[j].key) {
      assert all[i].key == (acc + es)[i].key && all[j].key == (acc + es)[j].key;
    }
  }

  /** One turn of the loop over the members of an object that is no placeholder. */
  lemma MemberStep(es: seq<Entry>, base: nat, buffers: seq<bytes>, acc: seq<Entry>)
    requires es != [] && forall i | 0 <= i < |es| :: Sendable(es[i].value)
    requires Ascending(acc + es)
    ensures FromMembers(EntryDoms(es, base), buffers, acc)
         == match FromJson(Dom(es[0].value, base), buffers)
            case None => None
            case Some(m) => FromMembers(RestDoms(es, 0, base), buffers, acc + [Entry(es[0].key, m)])
  {
    hide Attachments, Dom, Sendable, FromJson, KeyLess, Ascending, Put;
    var m := FromJson(Dom(es[0].value, base), buffers);
    assert EntryDoms(es, base)[1..] == RestDoms(es, 0, base);
    if m.Some? {
      PutNext(acc, es, m.value);
    }
  }

  lemma CleanStep(es: seq<Entry>)
    requires es != []
    ensures AllClean(es) <==> Clean(es[0].value) && AllClean(es[1..])
  {
    hide Clean;
    assert forall i | 0 < i < |es| :: es[i] == es[1..][i - 1];
    assert forall i | 0 <= i < |es[1..]| :: es[1..][i] == es[i + 1];
  }

  lemma {:induction false} RebuildsMembers(es: seq<Entry>, base: nat, buffers: seq<bytes>, acc: seq<Entry>)
    requires forall i | 0 <= i < |es| :: Sendable(es[i].value)
    requires Carries(buffers, base, EntryAttachments(es)) && Ascending(acc + es)
    ensures FromMembers(EntryDoms(es, base), buffers, acc) == Some(acc + es) <==> AllClean(es)
    ensures FromMembers(EntryDoms(es, base), buffers, acc).Some? ==>
              acc <= FromMembers(EntryDoms(es, base), buffers, acc).value
    decreases es, 0
  {
    hide Attachments, Dom, Sendable, FromJson, Clean, Carries, KeyLess, Ascending;
    if es == [] {
      assert acc + es == acc;
    } else {
      CarriesSplit(buffers, base, Attachments(es[0].value), EntryAttachments(es[1..]));
      hide EntryDoms, EntryAttachments, FromMembers, AllClean;
      Rebuilds(es[0].value, base, buffers);
      MemberStep(es, base, buffers, acc);
      CleanStep(es);
      if m :| FromJson(Dom(es[0].value, base), buffers) == Some(m) {
        var acc' := acc + [Entry(es[0].key, m)];
        PutNext(acc, es, m);
        RebuildsMembers(es[1..], base + |Attachments(es[0].value)|, buffers, acc');
        assert acc + es == acc + [es[0]] + es[1..];
        assert acc'[|acc|] == Entry(es[0].key, m) && (acc + es)[|acc|] == es[0];
      }
    }
  }

  lemma {:induction false} FoundMember(es: seq<Entry>, base: nat, key: bytes)
    requires forall i | 0 <= i < |es| :: Sendable(es[i].value)
    requires Ascending(es)
    ensures match FindMember(EntryDoms(es, base), key)
            case None => forall i | 0 <= i < |es| :: es[i].key != key
            case Some(v) => exists i, at | 0 <= i < |es| :: es[i].key == key && v == Dom(es[i].value, at)
  {
    hide Attachments, Dom, Sendable, KeyLess;
    if es != [] {
      var next := base + |Attachments(es[0].value)|;
      assert EntryDoms(es, base)[1..] == EntryDoms(es[1..], next);
      FoundMember(es[1..], next, key);
      if es[0].key == key {
        assert FindMember(EntryDoms(es, base), key) == Some(Dom(es[0].value, base));
      }
      assert forall i | 0 < i < |es| :: es[i] == es[1..][i - 1];
    }
  }

  /** A member is one in a map: no two entries share a key. */
  lemma SameKey(es: seq<Entry>, i: nat, j: nat)
    requires Ascending(es) && i < |es| && j < |es| && es[i].key == es[j].key
    ensures i == j
  {
    KeyOrder(es[i].key, es[j].key);
  }

  /** What FindMember answers for the placeholder mark tells whether some entry looks like one. */
  lemma MarkFound(es: seq<Entry>, base: nat)
    requires Ascending(es) && forall i | 0 <= i < |es| :: Sendable(es[i].value)
    ensures FindMember(EntryDoms(es, base), PLACEHOLDER) in {None, Some(BoolValue(false))} <==> Unmarked(es)
  {
    hide Ascending, KeyLess, Attachments, FindMember, EntryDoms;
    FoundMember(es, base, PLACEHOLDER);
    var mark := FindMember(EntryDoms(es, base), PLACEHOLDER);
    if mark.Some? {
      var i, at :| 0 <= i < |es| && es[i].key == PLACEHOLDER && mark.value == Dom(es[i].value, at);
      forall j | 0 <= j < |es| && es[j].key == PLACEHOLDER ensures j == i {
        SameKey(es, i, j);
      }
    }
  }

  lemma {:induction false} RebuildsObject(es: seq<Entry>, base: nat, buffers: seq<bytes>)
    requires Sendable(ObjectMessage(es)) && Carries(buffers, base, EntryAttachments(es))
    ensures FromJson(Dom(ObjectMessage(es), base), buffers) == Some(ObjectMessage(es)) <==> Clean(ObjectMessage(es))
    decreases es, 1
  {
    hide Ascending, KeyLess, Attachments, Carries, FindMember, FromMembers, EntryDoms, AllClean, Unmarked;
    MarkFound(es, base);
    assert [] + es == es;
    RebuildsMembers(es, base, buffers, []);
  }

  // ---------------------------------------------------------------- numbering

  /** The numbers of the placeholders in a DOM, in traversal order. */
  function Numbers(v: Value): seq<int>
    decreases v, 1
  {
    match v
    case ArrayValue(vs) => ElementNumbers(vs)
    case ObjectValue(ms) => (
      match (FindMember(ms, PLACEHOLDER), FindMember(ms, NUM))
      case (Some(BoolValue(true)), Some(NumberValue(num, _))) => [num]
      case _ => MemberNumbers(ms))
    case _ => []
  }

  function ElementNumbers(vs: seq<Value>): seq<int>
    decreases vs, 0
  {
    if vs == [] then [] else Numbers(vs[0]) + ElementNumbers(vs[1..])
  }

  function MemberNumbers(ms: seq<Member>): seq<int>
    decreases ms, 0
  {
    if ms == [] then [] else Numbers(ms[0].value) + MemberNumbers(ms[1..])
  }

  /** base, base + 1, and so on, n of them. */
  function From(base: nat, n: nat): seq<int> {
    seq(n, i => base + i)
  }

  lemma FromSplit(base: nat, a: nat, b: nat)
    ensures From(base, a) + From(base + a, b) == From(base, a + b)
  {
  }

  /** Placeholders are numbered in traversal order, from the attachments already there. */
  lemma {:induction false} Numbered(m: Message, base: nat)
    requires Sendable(m) && Clean(m) && base + |Attachments(m)| <= TWO31
    ensures Numbers(Dom(m, base)) == From(base, |Attachments(m)|)
    decreases m, 1
  {
    match m
    case BinaryMessage(_) =>
      var ms := Placeholder(base).members;
      assert PLACEHOLDER[0] != NUM[0];
      assert FindMember(ms, PLACEHOLDER) == Some(BoolValue(true));
      assert ms[1..][0] == ms[1] && FindMember(ms, NUM) == Some(OfInt(base));
    case ArrayMessage(ms) => NumberedElements(ms, base);
    case ObjectMessage(es) =>
      hide FindMember, EntryDoms, MemberNumbers, EntryAttachments;
      MarkFound(es, base);
      NumberedEntries(es, base);
    case _ =>
  }

  lemma {:induction false} NumberedElements(ms: seq<Message>, base: nat)
    requires forall i | 0 <= i < |ms| :: Sendable(ms[i]) && Clean(ms[i])
    requires base + |ElementAttachments(ms)| <= TWO31
    ensures ElementNumbers(ElementDoms(ms, base)) == From(base, |ElementAttachments(ms)|)
    decreases ms, 0
  {
    hide Attachments, Dom, Numbers;
    if ms != [] {
      var n := |Attachments(ms[0])|;
      Numbered(ms[0], base);
      NumberedElements(ms[1..], base + n);
      FromSplit(base, n, |ElementAttachments(ms[1..])|);
      assert ElementDoms(ms, base)[1..] == ElementDoms(ms[1..], base + n);
    }
  }

  lemma {:induction false} NumberedEntries(es: seq<Entry>, base: nat)
    requires forall i | 0 <= i < |es| :: Sendable(es[i].value)
    requires AllClean(es) && base + |EntryAttachments(es)| <= TWO31
    ensures MemberNumbers(EntryDoms(es, base)) == From(base, |EntryAttachments(es)|)
    decreases es, 0
  {
    hide Attachments, Dom, Numbers;
    if es != [] {
      var n := |Attachments(es[0].value)|;
      Numbered(es[0].value, base);
      NumberedEntries(es[1..], base + n);
      FromSplit(base, n, |EntryAttachments(es[1..])|);
      assert EntryDoms(es, base)[1..] == EntryDoms(es[1..], base + n);
    }
  }

  /** An object that says of itself that it is a placeholder. */
  lemma MarkedObjectLost()
    ensures var m := ObjectMessage([Entry(PLACEHOLDER, BoolMessage(true))]);
            Sendable(m) && Attachments(m) == [] && FromJson(Dom(m, 0), []) != Some(m)
  {
    var es := [Entry(PLACEHOLDER, BoolMessage(true))];
    var m := ObjectMessage(es);
    assert es[1..] == [];
    assert EntryAttachments(es) == Attachments(es[0].value) + EntryAttachments([]);
    assert es[0].key == PLACEHOLDER && !Unmarked(es);
    Rebuilds(m, 0, []);
  }
}
