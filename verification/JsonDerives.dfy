/** JSON texts as section 2 of RFC 4627 derives them, with any value at the root: the reader accepts exactly
    the texts with a derivation in which no number is too big, and reports the events of the derivation. */
module JsonDerives {
  import opened Bytes
  import opened JsonEvents
  import opened JsonGrammar
  import opened JsonRoundTrip
  import opened JsonSyntax

  // ---------------------------------------------------------------- derivations

  /** A derivation keeps its white space: space stands after the opening bracket. */
  datatype Tree =
    | NullTree
    | BoolTree(b: bool)
    | NumberTree(n: Number)
    | StringTree(xs: seq<Char>)
    | ArrayTree(space: bytes, items: seq<Item>)
    | ObjectTree(space: bytes, fields: seq<Field>)

  /** A value, the white space after it, and the white space after the comma, if one follows. */
  datatype Item = Item(value: Tree, after: bytes, next: bytes)

  datatype Field = Field(name: seq<Char>, gap: bytes, space: bytes, item: Item)

  predicate TreeOk(v: Tree) {
    match v
    case NumberTree(n) => NumberOk(n) && NumberFits(n)
    case StringTree(xs) => CharsOk(xs)
    case ArrayTree(space, items) => Space(space) && forall i | 0 <= i < |items| :: ItemOk(items[i])
    case ObjectTree(space, fields) => Space(space) && forall i | 0 <= i < |fields| :: FieldOk(fields[i])
    case _ => true
  }

  predicate ItemOk(x: Item) {
    TreeOk(x.value) && Space(x.after) && Space(x.next)
  }

  predicate FieldOk(x: Field) {
    && CharsOk(x.name) && Space(x.gap) && Space(x.space)
    && TreeOk(x.item.value) && Space(x.item.after) && Space(x.item.next)
  }

  /** The text of a derivation, before what follows. */
  function TreeThen(v: Tree, rest: bytes): bytes
    decreases v, 1
  {
    match v
    case NullTree => [LOWER_N] + (ULL + rest)
    case BoolTree(b) => if b then [LOWER_T] + (RUE + rest) else [LOWER_F] + (ALSE + rest)
    case NumberTree(n) => NumberThen(n, rest)
    case StringTree(xs) => [QUOTE] + CharsThen(xs, rest)
    case ArrayTree(space, items) =>
      [LBRACKET] + (space + if items == [] then [RBRACKET] + rest else ItemsThen(items, rest))
    case ObjectTree(space, fields) =>
      [LBRACE] + (space + if fields == [] then [RBRACE] + rest else FieldsThen(fields, rest))
  }

  function ItemsThen(xs: seq<Item>, rest: bytes): bytes
    requires xs != []
    decreases xs, 0
  {
    TreeThen(xs[0].value, xs[0].after +
      if |xs| == 1 then [RBRACKET] + rest else [COMMA] + (xs[0].next + ItemsThen(xs[1..], rest)))
  }

  function FieldsThen(xs: seq<Field>, rest: bytes): bytes
    requires xs != []
    decreases xs, 0
  {
    [QUOTE] + CharsThen(xs[0].name, xs[0].gap + ([COLON] + (xs[0].space +
      TreeThen(xs[0].item.value, xs[0].item.after +
        if |xs| == 1 then [RBRACE] + rest else [COMMA] + (xs[0].item.next + FieldsThen(xs[1..], rest))))))
  }

  function TreeEvents(v: Tree): seq<Event>
    requires TreeOk(v)
    decreases v, 1
  {
    match v
    case NullTree => [Null]
    case BoolTree(b) => [Bool(b)]
    case NumberTree(n) => [NumberHeard(n)]
    case StringTree(xs) => [String(CharsBytes(xs))]
    case ArrayTree(_, items) => [StartArray] + ItemEvents(items) + [EndArray(|items|)]
    case ObjectTree(_, fields) => [StartObject] + FieldEvents(fields) + [EndObject(|fields|)]
  }

  function ItemEvents(xs: seq<Item>): seq<Event>
    requires forall i | 0 <= i < |xs| :: ItemOk(xs[i])
    decreases xs, 0
  {
    if xs == [] then []
    else
      assert ItemOk(xs[0]);
      TreeEvents(xs[0].value) + ItemEvents(xs[1..])
  }

  function FieldEvents(xs: seq<Field>): seq<Event>
    requires forall i | 0 <= i < |xs| :: FieldOk(xs[i])
    decreases xs, 0
  {
    if xs == [] then []
    else
      assert FieldOk(xs[0]);
      [Key(CharsBytes(xs[0].name))] + TreeEvents(xs[0].item.value) + FieldEvents(xs[1..])
  }

  // ---------------------------------------------------------------- brackets, commas and colons

  /** White space of a derivation is skipped. */
  lemma Skips(t: bytes, p: nat, s: bytes, rest: bytes)
    requires Suffix(t, p, s + rest) && Space(s) && !IsSpace(First(rest))
    ensures |rest| <= |t| && Suffix(t, |t| - |rest|, rest) && SkipSpace(t, p) == |t| - |rest|
  {
    SpacesSkipped(t, p, s, rest);
  }

  lemma OpensRead(t: bytes, p: nat, open: byte, space: bytes, rest: bytes, log: seq<Event>, h: Handler)
    requires Agreeable(h) && (open == LBRACKET || open == LBRACE) && Space(space) && StartsValue(First(rest))
    requires Suffix(t, p, [open] + (space + rest))
    ensures |rest| <= |t| && Suffix(t, |t| - |rest|, rest)
    ensures ParseValue(t, p, log, h)
         == if open == LBRACKET then Elements(t, |t| - |rest|, log + [StartArray], h, 0)
            else Members(t, |t| - |rest|, log + [StartObject], h, 0)
  {
    hide ParseValue, Elements, Members, Space;
    SuffixHead(t, p, open, space + rest);
    Skips(t, p + 1, space, rest);
    SuffixPeek(t, |t| - |rest|, rest);
    if open == LBRACKET {
      ArrayOpens(t, p, log, h);
    } else {
      ObjectOpens(t, p, log, h);
    }
  }

  lemma EmptyReads(t: bytes, p: nat, open: byte, space: bytes, rest: bytes, log: seq<Event>, h: Handler)
    requires Agreeable(h) && Space(space) && (open == LBRACKET || open == LBRACE)
    requires Suffix(t, p, [open] + (space + ([if open == LBRACKET then RBRACKET else RBRACE] + rest)))
    ensures |rest| <= |t| && Suffix(t, |t| - |rest|, rest)
    ensures ParseValue(t, p, log, h)
         == Progress(|t| - |rest|,
                     if open == LBRACKET then log + [StartArray] + [EndArray(0)]
                     else log + [StartObject] + [EndObject(0)],
                     Good)
  {
    hide Elements, Members, Space, ParseScalar;
    var close := if open == LBRACKET then RBRACKET else RBRACE;
    SuffixHead(t, p, open, space + ([close] + rest));
    Skips(t, p + 1, space, [close] + rest);
    SuffixHead(t, SkipSpace(t, p + 1), close, rest);
    assert ParseValue(t, p, log, h)
        == if open == LBRACKET then ParseArray(t, p, log, h) else ParseObject(t, p, log, h);
  }

  lemma CommaReads(t: bytes, q: nat, after: bytes, next: bytes, rest: bytes, log: seq<Event>, h: Handler, n: nat)
    requires Space(after) && Space(next) && StartsValue(First(rest))
    requires Suffix(t, q, after + ([COMMA] + (next + rest)))
    ensures |rest| <= |t| && Suffix(t, |t| - |rest|, rest)
    ensures AfterElement(t, q, log, h, n) == Elements(t, |t| - |rest|, log, h, n + 1)
    ensures AfterMember(t, q, log, h, n) == Members(t, |t| - |rest|, log, h, n + 1)
  {
    hide Elements, Members, Space, Suffix;
    Skips(t, q, after, [COMMA] + (next + rest));
    SuffixHead(t, SkipSpace(t, q), COMMA, next + rest);
    Skips(t, SkipSpace(t, q) + 1, next, rest);
  }

  lemma CloseReads(t: bytes, q: nat, after: bytes, close: byte, rest: bytes, log: seq<Event>, h: Handler, n: nat)
    requires Agreeable(h) && Space(after) && (close == RBRACKET || close == RBRACE)
    requires Suffix(t, q, after + ([close] + rest))
    ensures |rest| <= |t| && Suffix(t, |t| - |rest|, rest)
    ensures close == RBRACKET ==>
      AfterElement(t, q, log, h, n) == Progress(|t| - |rest|, log + [EndArray(n + 1)], Good)
    ensures close == RBRACE ==>
      AfterMember(t, q, log, h, n) == Progress(|t| - |rest|, log + [EndObject(n + 1)], Good)
  {
    hide Elements, Members, Space, Suffix;
    Skips(t, q, after, [close] + rest);
    SuffixHead(t, SkipSpace(t, q), close, rest);
  }

  lemma ColonReads(t: bytes, q: nat, gap: bytes, space: bytes, rest: bytes, log: seq<Event>, h: Handler, n: nat)
    requires Space(gap) && Space(space) && StartsValue(First(rest))
    requires Suffix(t, q, gap + ([COLON] + (space + rest)))
    ensures |rest| <= |t| && Suffix(t, |t| - |rest|, rest)
    ensures AfterKey(t, q, log, h, n) == MemberValue(t, |t| - |rest|, log, h, n)
  {
    hide MemberValue, Space, Suffix;
    Skips(t, q, gap, [COLON] + (space + rest));
    SuffixHead(t, SkipSpace(t, q), COLON, space + rest);
    Skips(t, SkipSpace(t, q) + 1, space, rest);
  }

  /** A quoted string, read as a key or as a value. */
  lemma QuotedReads(t: bytes, p: nat, xs: seq<Char>, rest: bytes, log: seq<Event>, h: Handler, isKey: bool)
    requires Suffix(t, p, [QUOTE] + CharsThen(xs, rest)) && CharsOk(xs) && Agreeable(h)
    ensures p < |t| && t[p] == QUOTE && |rest| <= |t| && Suffix(t, |t| - |rest|, rest)
    ensures ParseString(t, p, log, h, isKey)
         == Progress(|t| - |rest|, log + [if isKey then Key(CharsBytes(xs)) else String(CharsBytes(xs))], Good)
  {
    hide CharsThen, CharsBytes, CharsOk, Body;
    SuffixHead(t, p, QUOTE, CharsThen(xs, rest));
    CharsRead(t, p + 1, xs, rest);
  }

  lemma NameReads(t: bytes, p: nat, xs: seq<Char>, rest: bytes, log: seq<Event>, h: Handler, n: nat)
    requires Suffix(t, p, [QUOTE] + CharsThen(xs, rest)) && CharsOk(xs) && Agreeable(h)
    ensures |rest| <= |t| && Suffix(t, |t| - |rest|, rest)
    ensures Members(t, p, log, h, n) == AfterKey(t, |t| - |rest|, log + [Key(CharsBytes(xs))], h, n)
  {
    hide Members, AfterKey, CharsThen, CharsBytes, CharsOk, ParseString, Suffix;
    QuotedReads(t, p, xs, rest, log, h, true);
    NameIsKey(t, p, log, h, n);
  }

  lemma NameIsKey(t: bytes, p: nat, log: seq<Event>, h: Handler, n: nat)
    requires p < |t| && t[p] == QUOTE && ParseString(t, p, log, h, true).status.Good?
    ensures var k := ParseString(t, p, log, h, true); Members(t, p, log, h, n) == AfterKey(t, k.pos, k.log, h, n)
  {
    hide AfterKey, ParseString;
  }

  // ---------------------------------------------------------------- a derivation is read

  lemma NumberStarts(n: Number, rest: bytes)
    requires NumberOk(n)
    ensures First(NumberThen(n, rest)) == MINUS || IsDigit(First(NumberThen(n, rest)))
  {
  }

  lemma TreeStarts(v: Tree, rest: bytes)
    requires TreeOk(v)
    ensures StartsValue(First(TreeThen(v, rest)))
  {
    hide ItemsThen, FieldsThen, NumberThen, CharsThen;
    if v.NumberTree? {
      NumberStarts(v.n, rest);
    }
  }

  lemma EndsStop(n: Number, c: byte)
    requires Ends(c)
    ensures Stops(n, c)
  {
  }

  lemma WordReads(t: bytes, p: nat, first: byte, word: bytes, rest: bytes, e: Event, log: seq<Event>, h: Handler)
    requires Suffix(t, p, [first] + (word + rest)) && Agreeable(h)
    requires || (first == LOWER_N && word == ULL && e == Null)
             || (first == LOWER_T && word == RUE && e == Bool(true))
             || (first == LOWER_F && word == ALSE && e == Bool(false))
    ensures |rest| <= |t| && Suffix(t, |t| - |rest|, rest)
    ensures ParseValue(t, p, log, h) == Progress(|t| - |rest|, log + [e], Good)
  {
    hide ParseNumber, ParseWord, ParseArray, ParseObject, ParseString;
    WordReadsBack(t, p, first, word, rest, e, log, h);
    SuffixHead(t, p, first, word + rest);
    SuffixSplit(t, p + 1, word, rest);
    assert ParseValue(t, p, log, h) == ParseScalar(t, p, log, h);
  }

  lemma NumberReads(t: bytes, p: nat, n: Number, rest: bytes, log: seq<Event>, h: Handler)
    requires Suffix(t, p, NumberThen(n, rest)) && NumberOk(n) && NumberFits(n) && Ends(First(rest)) && Agreeable(h)
    ensures |rest| <= |t| && Suffix(t, |t| - |rest|, rest)
    ensures ParseValue(t, p, log, h) == Progress(|t| - |rest|, log + [NumberHeard(n)], Good)
  {
    hide ParseNumber, ParseWord, ParseArray, ParseObject, ParseString, NumberThen, NumberOk, NumberFits, NumberHeard,
         Stops;
    EndsStop(n, First(rest));
    NumberStarts(n, rest);
    SuffixPeek(t, p, NumberThen(n, rest));
    NumberRead(t, p, n, rest, log, h);
    assert ParseValue(t, p, log, h) == ParseScalar(t, p, log, h) == ParseNumber(t, p, log, h);
  }

  lemma ScalarReads(t: bytes, p: nat, v: Tree, rest: bytes, log: seq<Event>, h: Handler)
    requires TreeOk(v) && !v.ArrayTree? && !v.ObjectTree?
    requires Suffix(t, p, TreeThen(v, rest)) && Ends(First(rest)) && Agreeable(h)
    ensures |rest| <= |t| && Suffix(t, |t| - |rest|, rest)
    ensures ParseValue(t, p, log, h) == Progress(|t| - |rest|, log + TreeEvents(v), Good)
  {
    hide ParseValue, NumberThen, CharsThen, CharsBytes, CharsOk, NumberOk, NumberFits, NumberHeard, Suffix;
    match v
    case NullTree => WordReads(t, p, LOWER_N, ULL, rest, Null, log, h);
    case BoolTree(b) =>
      if b {
        WordReads(t, p, LOWER_T, RUE, rest, Bool(true), log, h);
      } else {
        WordReads(t, p, LOWER_F, ALSE, rest, Bool(false), log, h);
      }
    case NumberTree(n) => NumberReads(t, p, n, rest, log, h);
    case StringTree(xs) =>
      QuotedReads(t, p, xs, rest, log, h, false);
      QuotedIsValue(t, p, log, h);
  }

  lemma QuotedIsValue(t: bytes, p: nat, log: seq<Event>, h: Handler)
    requires p < |t| && t[p] == QUOTE
    ensures ParseValue(t, p, log, h) == ParseString(t, p, log, h, false)
  {
    hide ParseNumber, ParseArray, ParseObject, ParseString;
    assert ParseValue(t, p, log, h) == ParseScalar(t, p, log, h);
  }

  /** What follows an item of an array, and what follows it in an object. */
  function ItemsTail(xs: seq<Item>, rest: bytes): bytes
    requires xs != []
  {
    xs[0].after + if |xs| == 1 then [RBRACKET] + rest else [COMMA] + (xs[0].next + ItemsThen(xs[1..], rest))
  }

  function FieldsTail(xs: seq<Field>, rest: bytes): bytes
    requires xs != []
  {
    xs[0].item.after + if |xs| == 1 then [RBRACE] + rest else [COMMA] + (xs[0].item.next + FieldsThen(xs[1..], rest))
  }

  lemma FieldsText(xs: seq<Field>, rest: bytes)
    requires xs != []
    ensures FieldsThen(xs, rest)
         == [QUOTE] + CharsThen(xs[0].name, xs[0].gap + ([COLON] + (xs[0].space +
              TreeThen(xs[0].item.value, FieldsTail(xs, rest)))))
  {
  }

  lemma SpaceEnds(s: bytes, c: byte, rest: bytes)
    requires Space(s) && Ends(c)
    ensures Ends(First(s + ([c] + rest)))
  {
  }

  lemma TailEnds(x: Item, more: bool, close: byte, rest: bytes, next: bytes)
    requires ItemOk(x) && (close == RBRACKET || close == RBRACE)
    ensures Ends(First(x.after + if !more then [close] + rest else [COMMA] + next))
  {
    if more { SpaceEnds(x.after, COMMA, next); } else { SpaceEnds(x.after, close, rest); }
  }

  lemma NothingHeard()
    ensures ItemEvents([]) == [] && FieldEvents([]) == []
  {
  }

  lemma NoSpace()
    ensures Space([])
  {
  }

  /** A derivation is read whole, and its events are reported. */
  lemma {:induction false} TreeReads(t: bytes, p: nat, v: Tree, rest: bytes, log: seq<Event>, h: Handler)
    requires TreeOk(v) && Agreeable(h) && Suffix(t, p, TreeThen(v, rest)) && Ends(First(rest))
    ensures |rest| <= |t| && Suffix(t, |t| - |rest|, rest)
    ensures ParseValue(t, p, log, h) == Progress(|t| - |rest|, log + TreeEvents(v), Good)
    decreases v, 3
  {
    hide ParseValue, Suffix, TreeThen, TreeEvents, TreeOk;
    match v
    case ArrayTree(space, items) => ArrayReads(t, p, space, items, rest, log, h);
    case ObjectTree(space, fields) => ObjectReads(t, p, space, fields, rest, log, h);
    case _ => ScalarReads(t, p, v, rest, log, h);
  }

  lemma {:induction false} ArrayReads(t: bytes, p: nat, space: bytes, items: seq<Item>, rest: bytes, log: seq<Event>,
                                      h: Handler)
    requires TreeOk(ArrayTree(space, items)) && Agreeable(h) && Suffix(t, p, TreeThen(ArrayTree(space, items), rest))
    ensures |rest| <= |t| && Suffix(t, |t| - |rest|, rest)
    ensures ParseValue(t, p, log, h) == Progress(|t| - |rest|, log + TreeEvents(ArrayTree(space, items)), Good)
    decreases items, 2
  {
    hide ParseValue, Elements, Suffix, ItemsThen, ItemEvents, ItemOk;
    if items == [] {
      EmptyReads(t, p, LBRACKET, space, rest, log, h);
      NothingHeard();
      assert log + [StartArray] + [EndArray(0)] == log + ([StartArray] + [] + [EndArray(0)]);
    } else {
      var body := ItemsThen(items, rest);
      ItemsStart(items, rest);
      OpensRead(t, p, LBRACKET, space, body, log, h);
      ItemsRead(t, |t| - |body|, items, rest, log + [StartArray], h, 0);
      assert log + [StartArray] + ItemEvents(items) + [EndArray(|items|)]
          == log + ([StartArray] + ItemEvents(items) + [EndArray(|items|)]);
    }
  }

  lemma {:induction false} ObjectReads(t: bytes, p: nat, space: bytes, fields: seq<Field>, rest: bytes,
                                       log: seq<Event>, h: Handler)
    requires TreeOk(ObjectTree(space, fields)) && Agreeable(h) && Suffix(t, p, TreeThen(ObjectTree(space, fields), rest))
    ensures |rest| <= |t| && Suffix(t, |t| - |rest|, rest)
    ensures ParseValue(t, p, log, h) == Progress(|t| - |rest|, log + TreeEvents(ObjectTree(space, fields)), Good)
    decreases fields, 2
  {
    hide ParseValue, Members, Suffix, FieldsThen, FieldEvents, FieldOk;
    if fields == [] {
      EmptyReads(t, p, LBRACE, space, rest, log, h);
      NothingHeard();
      assert log + [StartObject] + [EndObject(0)] == log + ([StartObject] + [] + [EndObject(0)]);
    } else {
      var body := FieldsThen(fields, rest);
      FieldsText(fields, rest);
      OpensRead(t, p, LBRACE, space, body, log, h);
      FieldsRead(t, |t| - |body|, fields, rest, log + [StartObject], h, 0);
      assert log + [StartObject] + FieldEvents(fields) + [EndObject(|fields|)]
          == log + ([StartObject] + FieldEvents(fields) + [EndObject(|fields|)]);
    }
  }

  lemma ItemsStart(xs: seq<Item>, rest: bytes)
    requires xs != [] && ItemOk(xs[0])
    ensures StartsValue(First(ItemsThen(xs, rest)))
  {
    TreeStarts(xs[0].value, ItemsTail(xs, rest));
  }

  lemma {:induction false} ItemsRead(t: bytes, p: nat, xs: seq<Item>, rest: bytes, log: seq<Event>, h: Handler, n: nat)
    requires xs != [] && (forall i | 0 <= i < |xs| :: ItemOk(xs[i])) && Agreeable(h)
    requires Suffix(t, p, ItemsThen(xs, rest))
    ensures |rest| <= |t| && Suffix(t, |t| - |rest|, rest)
    ensures Elements(t, p, log, h, n) == Progress(|t| - |rest|, log + ItemEvents(xs) + [EndArray(n + |xs|)], Good)
    decreases xs, 0
  {
    hide ParseValue, Elements, AfterElement, AfterMember, MemberValue, Suffix, TreeThen, TreeEvents, TreeOk, Space;
    var x, tail := xs[0], ItemsTail(xs, rest);
    assert ItemOk(x) && ItemsThen(xs, rest) == TreeThen(x.value, tail);
    TailEnds(x, |xs| > 1, RBRACKET, rest, if |xs| > 1 then x.next + ItemsThen(xs[1..], rest) else []);
    TreeReads(t, p, x.value, tail, log, h);
    var log1 := log + TreeEvents(x.value);
    ValueRead(t, p, |t| - |tail|, log, log1, h, n);
    ItemsHeard(log, xs);
    hide ItemEvents, ItemsThen;
    if |xs| == 1 {
      CloseReads(t, |t| - |tail|, x.after, RBRACKET, rest, log1, h, n);
    } else {
      var body := ItemsThen(xs[1..], rest);
      ItemsStart(xs[1..], rest);
      CommaReads(t, |t| - |tail|, x.after, x.next, body, log1, h, n);
      ItemsRead(t, |t| - |body|, xs[1..], rest, log1, h, n + 1);
    }
  }

  lemma {:induction false} FieldRead(t: bytes, p: nat, xs: seq<Field>, rest: bytes, log: seq<Event>, h: Handler, n: nat)
    requires xs != [] && FieldOk(xs[0]) && Agreeable(h) && Suffix(t, p, FieldsThen(xs, rest))
    ensures var tail := FieldsTail(xs, rest);
            && |tail| <= |t| && Suffix(t, |t| - |tail|, tail)
            && Members(t, p, log, h, n)
            == AfterMember(t, |t| - |tail|, log + [Key(CharsBytes(xs[0].name))] + TreeEvents(xs[0].item.value), h, n)
    decreases xs[0].item.value, 4
  {
    hide ParseValue, Members, AfterMember, AfterKey, MemberValue, Suffix, TreeThen, TreeEvents, TreeOk, Space,
         CharsThen, CharsBytes, CharsOk;
    var x, tail := xs[0], FieldsTail(xs, rest);
    var value := TreeThen(x.item.value, tail);
    var colon := x.gap + ([COLON] + (x.space + value));
    var log1 := log + [Key(CharsBytes(x.name))];
    NameReads(t, p, x.name, colon, log, h, n);
    TreeStarts(x.item.value, tail);
    ColonReads(t, |t| - |colon|, x.gap, x.space, value, log1, h, n);
    TailEnds(x.item, |xs| > 1, RBRACE, rest, if |xs| > 1 then x.item.next + FieldsThen(xs[1..], rest) else []);
    TreeReads(t, |t| - |value|, x.item.value, tail, log1, h);
    ValueRead(t, |t| - |value|, |t| - |tail|, log1, log1 + TreeEvents(x.item.value), h, n);
  }

  lemma {:induction false} FieldsRead(t: bytes, p: nat, xs: seq<Field>, rest: bytes, log: seq<Event>, h: Handler,
                                      n: nat)
    requires xs != [] && (forall i | 0 <= i < |xs| :: FieldOk(xs[i])) && Agreeable(h)
    requires Suffix(t, p, FieldsThen(xs, rest))
    ensures |rest| <= |t| && Suffix(t, |t| - |rest|, rest)
    ensures Members(t, p, log, h, n) == Progress(|t| - |rest|, log + FieldEvents(xs) + [EndObject(n + |xs|)], Good)
    decreases xs, 0
  {
    hide Members, AfterElement, AfterMember, Suffix, TreeThen, TreeEvents, TreeOk, Space, CharsThen, CharsBytes,
         CharsOk;
    var x, tail := xs[0], FieldsTail(xs, rest);
    assert FieldOk(x);
    var log1 := log + [Key(CharsBytes(x.name))] + TreeEvents(x.item.value);
    FieldRead(t, p, xs, rest, log, h, n);
    if |xs| == 1 {
      CloseReads(t, |t| - |tail|, x.item.after, RBRACE, rest, log1, h, n);
      FieldsHeard(log, xs);
    } else {
      var body := FieldsThen(xs[1..], rest);
      assert First(body) == QUOTE;
      CommaReads(t, |t| - |tail|, x.item.after, x.item.next, body, log1, h, n);
      FieldsRead(t, |t| - |body|, xs[1..], rest, log1, h, n + 1);
      FieldsHeard(log, xs);
    }
  }

  lemma FieldsHeard(log: seq<Event>, xs: seq<Field>)
    requires xs != [] && forall i | 0 <= i < |xs| :: FieldOk(xs[i])
    ensures FieldOk(xs[0])
    ensures log + [Key(CharsBytes(xs[0].name))] + TreeEvents(xs[0].item.value) + FieldEvents(xs[1..])
         == log + FieldEvents(xs)
    ensures |xs| == 1 ==> log + [Key(CharsBytes(xs[0].name))] + TreeEvents(xs[0].item.value) == log + FieldEvents(xs)
  {
    var key, es, more := [Key(CharsBytes(xs[0].name))], TreeEvents(xs[0].item.value), FieldEvents(xs[1..]);
    assert FieldEvents(xs) == key + es + more;
    assert |xs| == 1 ==> more == [];
    hide TreeEvents, FieldEvents;
    Regroup(log, key, es, more);
    if |xs| == 1 {
      assert log + key + es + [] == log + key + es;
    }
  }

  // ---------------------------------------------------------------- what is read has a derivation

  /** v derives the text from p to where r stands, and r has reported its events. */
  predicate Derived(t: bytes, p: nat, v: Tree, log: seq<Event>, r: Progress) {
    && p <= |t| && r.pos <= |t|
    && TreeOk(v) && t[p..] == TreeThen(v, t[r.pos..]) && r.log == log + TreeEvents(v)
  }

  lemma {:induction false} WordFound(t: bytes, p: nat, word: bytes)
    requires p <= |t| && (forall i | 0 <= i < |word| :: word[i] != NUL) && Word(t, p, word).ok
    ensures t[p..] == word + t[Word(t, p, word).next..]
    decreases |word|
  {
    if word != [] {
      WordFound(t, p + 1, word[1..]);
      assert t[p..] == [word[0]] + t[p + 1..];
      assert word == [word[0]] + word[1..];
    }
  }

  lemma WordDerived(t: bytes, p: nat, log: seq<Event>, h: Handler, word: bytes, e: Event)
    requires p < |t| && (forall i | 0 <= i < |word| :: word[i] != NUL)
    requires ParseWord(t, p, log, h, word, e).status.Good?
    ensures t[p..] == [t[p]] + (word + t[ParseWord(t, p, log, h, word, e).pos..])
    ensures ParseWord(t, p, log, h, word, e).log == log + [e]
  {
    hide Word;
    WordFound(t, p + 1, word);
    assert t[p..] == [t[p]] + t[p + 1..];
  }

  lemma StringDerived(t: bytes, p: nat, log: seq<Event>, h: Handler, isKey: bool) returns (xs: seq<Char>)
    requires p < |t| && t[p] == QUOTE && ParseString(t, p, log, h, isKey).status.Good?
    ensures CharsOk(xs) && t[p..] == [QUOTE] + CharsThen(xs, t[ParseString(t, p, log, h, isKey).pos..])
    ensures ParseString(t, p, log, h, isKey).log
         == log + [if isKey then Key(CharsBytes(xs)) else String(CharsBytes(xs))]
  {
    hide Body, CharsThen, CharsBytes, CharsOk;
    xs := CharsFound(t, p + 1);
    assert t[p..] == [QUOTE] + t[p + 1..];
  }

  lemma ScalarFound(t: bytes, p: nat, log: seq<Event>, h: Handler) returns (v: Tree)
    requires p <= |t| && ParseScalar(t, p, log, h).status.Good?
    ensures Derived(t, p, v, log, ParseScalar(t, p, log, h))
  {
    hide ParseNumber, ParseWord, ParseString, NumberThen, NumberHeard, NumberOk, NumberFits, CharsThen, CharsOk,
         CharsBytes;
    var c := Peek(t, p);
    if c == LOWER_N {
      v := NullTree;
      WordDerived(t, p, log, h, ULL, Null);
    } else if c == LOWER_T {
      v := BoolTree(true);
      WordDerived(t, p, log, h, RUE, Bool(true));
    } else if c == LOWER_F {
      v := BoolTree(false);
      WordDerived(t, p, log, h, ALSE, Bool(false));
    } else if c == QUOTE {
      var xs := StringDerived(t, p, log, h, false);
      v := StringTree(xs);
    } else {
      var n := NumberFound(t, p, log, h);
      v := NumberTree(n);
    }
  }

  lemma {:induction false} TreeFound(t: bytes, p: nat, log: seq<Event>, h: Handler) returns (v: Tree)
    requires p <= |t| && ParseValue(t, p, log, h).status.Good?
    ensures Derived(t, p, v, log, ParseValue(t, p, log, h))
    decreases |t| - p, 1
  {
    hide ParseScalar, ParseArray, ParseObject, Derived;
    var c := Peek(t, p);
    if c == LBRACKET {
      assert ParseValue(t, p, log, h) == ParseArray(t, p, log, h);
      v := ArrayFound(t, p, log, h);
    } else if c == LBRACE {
      assert ParseValue(t, p, log, h) == ParseObject(t, p, log, h);
      v := ObjectFound(t, p, log, h);
    } else {
      v := ScalarFound(t, p, log, h);
    }
  }

  /** An accepted container is empty or goes on with its first element or name. */
  lemma AfterOpening(t: bytes, p: nat, log: seq<Event>, h: Handler)
    requires p < |t|
    ensures var q := SkipSpace(t, p + 1); var r := ParseArray(t, p, log, h);
            r.status.Good? ==>
              if Peek(t, q) == RBRACKET then
                t[q..] == [RBRACKET] + t[q + 1..] && r == Progress(q + 1, log + [StartArray] + [EndArray(0)], Good)
              else r == Elements(t, q, log + [StartArray], h, 0)
    ensures var q := SkipSpace(t, p + 1); var r := ParseObject(t, p, log, h);
            r.status.Good? ==>
              if Peek(t, q) == RBRACE then
                t[q..] == [RBRACE] + t[q + 1..] && r == Progress(q + 1, log + [StartObject] + [EndObject(0)], Good)
              else r == Members(t, q, log + [StartObject], h, 0)
  {
    hide Elements, Members;
    var q := SkipSpace(t, p + 1);
    assert ParseArray(t, p, log, h).status.Good? ==> ParseArray(t, p, log, h) == ArrayOpen(t, q, log + [StartArray], h);
    assert ParseObject(t, p, log, h).status.Good? ==>
           ParseObject(t, p, log, h) == ObjectOpen(t, q, log + [StartObject], h);
  }

  lemma Enclosed(log: seq<Event>, open: Event, body: seq<Event>, close: Event)
    ensures log + [open] + body + [close] == log + ([open] + body + [close])
    ensures body == [] ==> log + [open] + [close] == log + ([open] + body + [close])
  {
  }

  lemma ArrayMade(space: bytes, items: seq<Item>, rest: bytes)
    requires Space(space) && forall i | 0 <= i < |items| :: ItemOk(items[i])
    ensures var v := ArrayTree(space, items);
            && TreeOk(v) && TreeEvents(v) == [StartArray] + ItemEvents(items) + [EndArray(|items|)]
            && TreeThen(v, rest)
            == [LBRACKET] + (space + if items == [] then [RBRACKET] + rest else ItemsThen(items, rest))
  {
  }

  lemma ObjectMade(space: bytes, fields: seq<Field>, rest: bytes)
    requires Space(space) && forall i | 0 <= i < |fields| :: FieldOk(fields[i])
    ensures var v := ObjectTree(space, fields);
            && TreeOk(v) && TreeEvents(v) == [StartObject] + FieldEvents(fields) + [EndObject(|fields|)]
            && TreeThen(v, rest)
            == [LBRACE] + (space + if fields == [] then [RBRACE] + rest else FieldsThen(fields, rest))
  {
  }

  lemma {:induction false} ArrayFound(t: bytes, p: nat, log: seq<Event>, h: Handler) returns (v: Tree)
    requires p < |t| && t[p] == LBRACKET && ParseArray(t, p, log, h).status.Good?
    ensures Derived(t, p, v, log, ParseArray(t, p, log, h))
    decreases |t| - p, 0
  {
    hide ParseArray, ParseObject, Elements, SkipSpace, TreeThen, TreeEvents, TreeOk, ItemsThen, ItemEvents, ItemOk,
         Space;
    var q := SkipSpace(t, p + 1);
    var space := SpaceSkipped(t, p + 1);
    AfterOpening(t, p, log, h);
    assert t[p..] == [LBRACKET] + t[p + 1..];
    var items: seq<Item> := [];
    NothingHeard();
    if Peek(t, q) != RBRACKET {
      items := ItemsFound(t, q, log + [StartArray], h, 0);
    }
    v := ArrayTree(space, items);
    Enclosed(log, StartArray, ItemEvents(items), EndArray(|items|));
    ArrayMade(space, items, t[ParseArray(t, p, log, h).pos..]);
  }

  /** After a value, an accepted container has a comma or its bracket. */
  lemma AfterValue(t: bytes, p: nat, log: seq<Event>, h: Handler, n: nat)
    requires p <= |t|
    ensures var q := SkipSpace(t, p); var r := AfterElement(t, p, log, h, n);
            r.status.Good? ==>
              && q < |t| && t[q..] == [t[q]] + t[q + 1..]
              && if t[q] == COMMA then r == Elements(t, SkipSpace(t, q + 1), log, h, n + 1)
                 else t[q] == RBRACKET && r == Progress(q + 1, log + [EndArray(n + 1)], Good)
    ensures var q := SkipSpace(t, p); var r := AfterMember(t, p, log, h, n);
            r.status.Good? ==>
              && q < |t| && t[q..] == [t[q]] + t[q + 1..]
              && if t[q] == COMMA then r == Members(t, SkipSpace(t, q + 1), log, h, n + 1)
                 else t[q] == RBRACE && r == Progress(q + 1, log + [EndObject(n + 1)], Good)
  {
    hide Elements, Members;
  }

  lemma ItemsHeard(log: seq<Event>, xs: seq<Item>)
    requires xs != [] && forall i | 0 <= i < |xs| :: ItemOk(xs[i])
    ensures ItemOk(xs[0]) && log + TreeEvents(xs[0].value) + ItemEvents(xs[1..]) == log + ItemEvents(xs)
    ensures |xs| == 1 ==> log + TreeEvents(xs[0].value) == log + ItemEvents(xs)
  {
    var es, more := TreeEvents(xs[0].value), ItemEvents(xs[1..]);
    assert ItemEvents(xs) == es + more;
    assert |xs| == 1 ==> more == [];
    hide TreeEvents, ItemEvents;
    assert log + es + more == log + (es + more);
  }

  lemma {:induction false} ItemsFound(t: bytes, p: nat, log: seq<Event>, h: Handler, n: nat) returns (xs: seq<Item>)
    requires p <= |t| && Elements(t, p, log, h, n).status.Good?
    ensures xs != [] && (forall i | 0 <= i < |xs| :: ItemOk(xs[i]))
    ensures t[p..] == ItemsThen(xs, t[Elements(t, p, log, h, n).pos..])
    ensures Elements(t, p, log, h, n).log == log + ItemEvents(xs) + [EndArray(n + |xs|)]
    decreases |t| - p, 2
  {
    hide ParseValue, Elements, AfterElement, AfterMember, SkipSpace, TreeThen, TreeEvents, ItemEvents, TreeOk, Space;
    var v := ElementFound(t, p, log, h, n);
    var r := ParseValue(t, p, log, h);
    var q := SkipSpace(t, r.pos);
    var after := SpaceSkipped(t, r.pos);
    AfterValue(t, r.pos, r.log, h, n);
    if t[q] == COMMA {
      var next := SpaceSkipped(t, q + 1);
      var more := ItemsFound(t, SkipSpace(t, q + 1), r.log, h, n + 1);
      xs := [Item(v, after, next)] + more;
      assert xs[1..] == more;
    } else {
      xs := [Item(v, after, [])];
      NoSpace();
    }
    ItemsHeard(log, xs);
  }

  lemma {:induction false} ElementFound(t: bytes, p: nat, log: seq<Event>, h: Handler, n: nat) returns (v: Tree)
    requires p <= |t| && Elements(t, p, log, h, n).status.Good?
    ensures Derived(t, p, v, log, ParseValue(t, p, log, h))
    ensures var r := ParseValue(t, p, log, h);
            r.status.Good? && p < r.pos && Elements(t, p, log, h, n) == AfterElement(t, r.pos, r.log, h, n)
    decreases |t| - p, 2, 0
  {
    hide ParseValue, AfterElement, Derived;
    v := TreeFound(t, p, log, h);
  }

  lemma {:induction false} ObjectFound(t: bytes, p: nat, log: seq<Event>, h: Handler) returns (v: Tree)
    requires p < |t| && t[p] == LBRACE && ParseObject(t, p, log, h).status.Good?
    ensures Derived(t, p, v, log, ParseObject(t, p, log, h))
    decreases |t| - p, 0
  {
    hide ParseArray, ParseObject, Members, SkipSpace, TreeThen, TreeEvents, TreeOk, FieldsThen, FieldEvents, FieldOk,
         Space;
    var q := SkipSpace(t, p + 1);
    var space := SpaceSkipped(t, p + 1);
    AfterOpening(t, p, log, h);
    assert t[p..] == [LBRACE] + t[p + 1..];
    var fields: seq<Field> := [];
    NothingHeard();
    if Peek(t, q) != RBRACE {
      fields := FieldsFound(t, q, log + [StartObject], h, 0);
    }
    v := ObjectTree(space, fields);
    Enclosed(log, StartObject, FieldEvents(fields), EndObject(|fields|));
    ObjectMade(space, fields, t[ParseObject(t, p, log, h).pos..]);
  }

  /** After a name, an accepted member has its colon and its value. */
  lemma AfterName(t: bytes, p: nat, log: seq<Event>, h: Handler, n: nat)
    requires p <= |t| && AfterKey(t, p, log, h, n).status.Good?
    ensures var q := SkipSpace(t, p); var m := SkipSpace(t, q + 1);
            && q < |t| && t[q] == COLON && t[q..] == [COLON] + t[q + 1..] && m <= |t|
            && var r := ParseValue(t, m, log, h);
               r.status.Good? && AfterKey(t, p, log, h, n) == AfterMember(t, r.pos, r.log, h, n)
  {
    hide ParseValue, AfterMember;
    var q := SkipSpace(t, p);
    assert AfterKey(t, p, log, h, n) == MemberValue(t, SkipSpace(t, q + 1), log, h, n);
  }

  lemma AtName(t: bytes, p: nat, log: seq<Event>, h: Handler, n: nat)
    requires p <= |t| && Members(t, p, log, h, n).status.Good?
    ensures p < |t| && t[p] == QUOTE
    ensures var k := ParseString(t, p, log, h, true);
            k.status.Good? && p < k.pos <= |t| && Members(t, p, log, h, n) == AfterKey(t, k.pos, k.log, h, n)
  {
    hide AfterKey, ParseString;
  }

  /** A member up to its colon. */
  lemma NameFound(t: bytes, p: nat, log: seq<Event>, h: Handler, n: nat)
      returns (name: seq<Char>, gap: bytes, space: bytes, m: nat)
    requires p <= |t| && Members(t, p, log, h, n).status.Good?
    ensures CharsOk(name) && Space(gap) && Space(space) && p < m <= |t|
    ensures t[p..] == [QUOTE] + CharsThen(name, gap + ([COLON] + (space + t[m..])))
    ensures var r := ParseValue(t, m, log + [Key(CharsBytes(name))], h);
            r.status.Good? && Members(t, p, log, h, n) == AfterMember(t, r.pos, r.log, h, n)
  {
    hide ParseValue, AfterMember, AfterKey, Members, SkipSpace, Space, CharsThen, CharsBytes, CharsOk, ParseString;
    AtName(t, p, log, h, n);
    name := StringDerived(t, p, log, h, true);
    var k := ParseString(t, p, log, h, true);
    AfterName(t, k.pos, k.log, h, n);
    gap, space, m := ColonFound(t, k.pos);
  }

  lemma ColonFound(t: bytes, p: nat) returns (gap: bytes, space: bytes, m: nat)
    requires p <= |t| && SkipSpace(t, p) < |t| && t[SkipSpace(t, p)] == COLON
    ensures m == SkipSpace(t, SkipSpace(t, p) + 1) && Space(gap) && Space(space) && p < m <= |t|
    ensures t[p..] == gap + ([COLON] + (space + t[m..]))
  {
    hide SkipSpace, Space;
    var q := SkipSpace(t, p);
    gap := SpaceSkipped(t, p);
    space := SpaceSkipped(t, q + 1);
    m := SkipSpace(t, q + 1);
    assert t[q..] == [COLON] + t[q + 1..];
  }

  /** A member up to its value: name, colon, value. */
  lemma {:induction false} FieldFound(t: bytes, p: nat, log: seq<Event>, h: Handler, n: nat)
      returns (name: seq<Char>, gap: bytes, space: bytes, v: Tree, r: Progress)
    requires p <= |t| && Members(t, p, log, h, n).status.Good?
    ensures CharsOk(name) && Space(gap) && Space(space) && TreeOk(v) && p < r.pos <= |t|
    ensures t[p..] == [QUOTE] + CharsThen(name, gap + ([COLON] + (space + TreeThen(v, t[r.pos..]))))
    ensures r.log == log + [Key(CharsBytes(name))] + TreeEvents(v)
    ensures Members(t, p, log, h, n) == AfterMember(t, r.pos, r.log, h, n)
    decreases |t| - p, 2, 0
  {
    hide ParseValue, AfterMember, AfterKey, Members, TreeThen, TreeEvents, TreeOk, Space, CharsThen, CharsBytes,
         CharsOk;
    var m;
    name, gap, space, m := NameFound(t, p, log, h, n);
    v := TreeFound(t, m, log + [Key(CharsBytes(name))], h);
    r := ParseValue(t, m, log + [Key(CharsBytes(name))], h);
  }

  lemma {:induction false} FieldsFound(t: bytes, p: nat, log: seq<Event>, h: Handler, n: nat) returns (xs: seq<Field>)
    requires p <= |t| && Members(t, p, log, h, n).status.Good?
    ensures xs != [] && (forall i | 0 <= i < |xs| :: FieldOk(xs[i]))
    ensures t[p..] == FieldsThen(xs, t[Members(t, p, log, h, n).pos..])
    ensures Members(t, p, log, h, n).log == log + FieldEvents(xs) + [EndObject(n + |xs|)]
    decreases |t| - p, 3
  {
    hide ParseValue, Members, AfterElement, AfterMember, SkipSpace, TreeThen, TreeEvents, TreeOk, Space, CharsThen,
         CharsBytes, CharsOk, FieldEvents, FieldsThen;
    var name, gap, space, v, r := FieldFound(t, p, log, h, n);
    var q := SkipSpace(t, r.pos);
    var after := SpaceSkipped(t, r.pos);
    AfterValue(t, r.pos, r.log, h, n);
    if t[q] == COMMA {
      var next := SpaceSkipped(t, q + 1);
      var more := FieldsFound(t, SkipSpace(t, q + 1), r.log, h, n + 1);
      xs := [Field(name, gap, space, Item(v, after, next))] + more;
      assert xs[1..] == more;
    } else {
      xs := [Field(name, gap, space, Item(v, after, []))];
      NoSpace();
    }
    FieldsText(xs, t[Members(t, p, log, h, n).pos..]);
    FieldsHeard(log, xs);
  }

  // ---------------------------------------------------------------- whole texts

  /** White space, a value, white space; the text ends at the first NUL after it, or where the buffer ends. */
  ghost predicate DerivesFrom(t: bytes, p: nat, v: Tree) {
    exists lead, trail, rest ::
      TreeOk(v) && Space(lead) && Space(trail) && (rest == [] || rest[0] == NUL)
      && Suffix(t, p, lead + TreeThen(v, trail + rest))
  }

  lemma DerivedParses(t: bytes, p: nat, v: Tree, log: seq<Event>, h: Handler)
    requires p <= |t| && DerivesFrom(t, p, v) && Agreeable(h)
    ensures TreeOk(v)
    ensures ParseFrom(t, p, log, h, false).status.Good? && ParseFrom(t, p, log, h, false).log == log + TreeEvents(v)
  {
    hide ParseFrom, TreeThen, TreeOk, TreeEvents, Space;
    var lead, trail, rest :| TreeOk(v) && Space(lead) && Space(trail) && (rest == [] || rest[0] == NUL)
      && Suffix(t, p, lead + TreeThen(v, trail + rest));
    PartsParse(t, p, v, lead, trail, rest, log, h);
  }

  lemma PartsParse(t: bytes, p: nat, v: Tree, lead: bytes, trail: bytes, rest: bytes, log: seq<Event>, h: Handler)
    requires TreeOk(v) && Space(lead) && Space(trail) && (rest == [] || rest[0] == NUL) && Agreeable(h)
    requires p <= |t| && Suffix(t, p, lead + TreeThen(v, trail + rest))
    ensures |rest| <= |t|
    ensures ParseFrom(t, p, log, h, false) == Progress(|t| - |rest|, log + TreeEvents(v), Good)
  {
    hide ParseValue, SkipSpace, TreeThen, TreeOk, TreeEvents;
    var body, tail := TreeThen(v, trail + rest), trail + rest;
    assert Ends(First(tail));
    hide Space, Ends, Suffix;
    TreeStarts(v, tail);
    Skips(t, p, lead, body);
    SuffixPeek(t, SkipSpace(t, p), body);
    TreeReads(t, SkipSpace(t, p), v, tail, log, h);
    Skips(t, |t| - |tail|, trail, rest);
    SuffixPeek(t, |t| - |rest|, rest);
  }

  lemma ParsedDerives(t: bytes, p: nat, log: seq<Event>, h: Handler) returns (v: Tree)
    requires p <= |t| && ParseFrom(t, p, log, h, false).status.Good?
    ensures DerivesFrom(t, p, v)
  {
    hide ParseValue, TreeThen, TreeOk, TreeEvents, Space;
    var q := SkipSpace(t, p);
    var lead := SpaceSkipped(t, p);
    v := TreeFound(t, q, log, h);
    var r := ParseValue(t, q, log, h);
    var trail := SpaceSkipped(t, r.pos);
    var rest := t[SkipSpace(t, r.pos)..];
    assert Suffix(t, p, lead + TreeThen(v, trail + rest));
  }

  /** A text is accepted if and only if it has a derivation in which no number is too big, whichever handler
      listens as long as it does not stop; and the events are those of the derivation. */
  lemma AcceptsExactly(t: bytes, p: nat, log: seq<Event>, h: Handler)
    requires p <= |t| && Agreeable(h)
    ensures ParseFrom(t, p, log, h, false).status.Good? <==> exists v :: DerivesFrom(t, p, v)
    ensures forall v | DerivesFrom(t, p, v) :: TreeOk(v) && ParseFrom(t, p, log, h, false).log == log + TreeEvents(v)
  {
    hide ParseFrom, TreeThen, TreeOk, TreeEvents, Space;
    if ParseFrom(t, p, log, h, false).status.Good? {
      var v := ParsedDerives(t, p, log, h);
    }
    forall v | DerivesFrom(t, p, v)
      ensures TreeOk(v) && ParseFrom(t, p, log, h, false).status.Good?
      ensures ParseFrom(t, p, log, h, false).log == log + TreeEvents(v)
    {
      DerivedParses(t, p, v, log, h);
    }
  }
}
