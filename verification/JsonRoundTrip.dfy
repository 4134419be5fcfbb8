/** Printing and parsing: the text of a value, in any layout, reads back to the value's events. */
module JsonRoundTrip {
  import opened Bytes
  import opened JsonEvents
  import opened JsonGrammar
  import opened JsonDom
  import opened JsonText
  import opened Options

  /** A handler that never stops the parse. */
  ghost predicate Agreeable(h: Handler) {
    forall log: seq<Event> :: h(log)
  }

  // ---------------------------------------------------------------- strings

  /** Four digits are read most significant first. */
  lemma Hex4Reads(t: bytes, p: nat)
    requires p + 4 <= |t|
    requires forall i | p <= i < p + 4 :: HexDigit(t[i]) >= 0
    ensures Hex4(t, p, 0, 0)
         == HexOk(HexDigit(t[p]) * 0x1000 + HexDigit(t[p + 1]) * 0x100 + HexDigit(t[p + 2]) * 0x10 + HexDigit(t[p + 3]))
  {
    var a := HexDigit(t[p]);
    var b := a * 16 + HexDigit(t[p + 1]);
    var c := b * 16 + HexDigit(t[p + 2]);
    var d := c * 16 + HexDigit(t[p + 3]);
    assert Hex4(t, p + 4, 4, d) == HexOk(d);
    assert Hex4(t, p + 3, 3, c) == Hex4(t, p + 4, 4, d);
    assert Hex4(t, p + 2, 2, b) == Hex4(t, p + 3, 3, c);
    assert Hex4(t, p + 1, 1, a) == Hex4(t, p + 2, 2, b);
  }

  /** The reader undoes the writer's escape of any byte. */
  lemma EscapeUndone(t: bytes, p: nat, c: byte, rest: bytes)
    requires Suffix(t, p, EscapeByte(c) + rest)
    ensures p + |EscapeByte(c)| <= |t| && Suffix(t, p + |EscapeByte(c)|, rest)
    ensures NextUnit(t, p) == Piece(p + |EscapeByte(c)|, [c])
  {
    var s := EscapeByte(c);
    SuffixSplit(t, p, s, rest);
    assert forall k | p <= k < p + |s| :: t[k] == s[k - p] by {
      assert forall k | p <= k < p + |s| :: t[k] == t[p..p + |s|][k - p];
    }
    if EscapeCode(c) == LOWER_U {
      Hex4Reads(t, p + 2);
    }
  }

  /** The closing quote, read at the end of a string. */
  lemma BodyEnds(t: bytes, p: nat, rest: bytes)
    requires Suffix(t, p, [QUOTE] + rest)
    ensures |rest| < |t| && Body(t, p) == Closed(|t| - |rest|, []) && Suffix(t, |t| - |rest|, rest)
  {
    SuffixHead(t, p, QUOTE, rest);
    SuffixEnd(t, p + 1, rest);
    hide Suffix, Escape;
  }

  /** One byte of a string, read back from its escape. */
  lemma BodyMore(t: bytes, p: nat, c: byte, rest: bytes)
    requires Suffix(t, p, EscapeByte(c) + rest)
    ensures p + |EscapeByte(c)| <= |t| && Suffix(t, p + |EscapeByte(c)|, rest)
    ensures Body(t, p) == Prepend([c], Body(t, p + |EscapeByte(c)|))
  {
    hide EscapeByte, NextUnit;
    EscapeUndone(t, p, c, rest);
    hide Suffix;
  }

  lemma {:induction false} BodyReadsBack(t: bytes, p: nat, s: bytes, rest: bytes)
    requires Suffix(t, p, EscapedThen(s, rest))
    ensures |rest| < |t| && Body(t, p) == Closed(|t| - |rest|, s) && Suffix(t, |t| - |rest|, rest)
    decreases |s|
  {
    hide EscapeByte, Body, Suffix;
    if s == [] {
      BodyEnds(t, p, rest);
    } else {
      BodyMore(t, p, s[0], EscapedThen(s[1..], rest));
      BodyReadsBack(t, p + |EscapeByte(s[0])|, s[1..], rest);
      assert [s[0]] + s[1..] == s;
    }
  }

  lemma SuffixEnd(t: bytes, p: nat, s: bytes)
    requires Suffix(t, p, s)
    ensures |s| <= |t| && p == |t| - |s|
  {
  }

  lemma StringReadsBack(t: bytes, p: nat, s: bytes, rest: bytes, log: seq<Event>, h: Handler, isKey: bool)
    requires Suffix(t, p, QuotedThen(s, rest)) && Agreeable(h)
    ensures p < |t| - |rest| && t[p] == QUOTE && Suffix(t, |t| - |rest|, rest)
    ensures ParseString(t, p, log, h, isKey)
         == Progress(|t| - |rest|, log + [if isKey then Key(s) else String(s)], Good)
  {
    SuffixHead(t, p, QUOTE, EscapedThen(s, rest));
    BodyReadsBack(t, p + 1, s, rest);
  }

  // ---------------------------------------------------------------- numbers

  /** What may follow a number without being taken for a part of it. */
  predicate Ends(c: byte) {
    !IsDigit(c) && c != DOT && !IsE(c)
  }

  lemma {:induction false} DecimalDenotes(n: nat)
    ensures ValueOf(Decimal(n)) == n
  {
    if n < 10 {
      assert Decimal(n)[..0] == [];
    } else {
      DecimalDenotes(n / 10);
      assert Decimal(n)[..|Decimal(n)| - 1] == Decimal(n / 10);
    }
  }

  lemma {:induction false} RunStops(t: bytes, q: nat, r: nat)
    requires AllDigits(t, q, r) && !IsDigit(Peek(t, r))
    ensures DigitsEnd(t, q) == r
    decreases r - q
  {
    if q < r {
      RunStops(t, q + 1, r);
    }
  }

  /** Digits whose value fits 64 bits never fill the double they would be read into. */
  lemma RunFits(t: bytes, q: nat, r: nat)
    requires AllDigits(t, q, r) && !IsDigit(Peek(t, r)) && q < r && RunValue(t, q, r) < TWO64
    ensures BigDigits(t, q, 0).Done?
  {
    hide RunValue, BigDigits, DOUBLE_LIMIT, AllDigits;
    TooBigExactly(t, q, r);
    DoubleLimitLarge();
  }

  /** An integer literal is reported exactly, as the narrowest type that holds it. */
  lemma IntegerLiteral(t: bytes, p: nat, minus: bool, q: nat, r: nat, log: seq<Event>, h: Handler)
    requires p <= |t| && q == (if minus then p + 1 else p) && minus == (Peek(t, p) == MINUS)
    requires AllDigits(t, q, r) && q < r && (t[q] == ZERO ==> r == q + 1) && Ends(Peek(t, r))
    requires RunValue(t, q, r) <= if minus then TWO63 else TWO64 - 1
    ensures ParseNumber(t, p, log, h)
         == Emit(h, r, log, IntegerEvent(minus, RunValue(t, q, r), []), r)
  {
    RunStops(t, q, r);
    RunFits(t, q, r);
    assert RunValue(t, q, r) == ValueOf(t[q..r]);
  }

  /** The event carries the literal's exact value in the narrowest type that holds it. */
  predicate Narrowest(e: Event, minus: bool, v: nat) {
    match e
    case Int(i) => minus && i == 0 - v && v <= TWO31
    case Int64(i) => minus && i == 0 - v && TWO31 < v <= TWO63
    case Uint(u) => !minus && u == v < TWO32
    case Uint64(u) => !minus && u == v && TWO32 <= v < TWO64
    case _ => false
  }

  /** Digits are too big for a double exactly when all but the last of them already fill it. */
  lemma {:induction false} FillsExactly(t: bytes, q: nat, p: nat, r: nat)
    requires AllDigits(t, q, r) && !IsDigit(Peek(t, r)) && q <= p <= r && q < r
    ensures BigDigits(t, p, RunValue(t, q, p)).TooBig? <==> p < r && RunValue(t, q, r - 1) >= DOUBLE_LIMIT
    decreases r - p
  {
    hide DOUBLE_LIMIT, RunValue;
    if p < r {
      if RunValue(t, q, p) >= DOUBLE_LIMIT {
        if p < r - 1 {
          RunGrows(t, q, p, r - 1);
        }
      } else {
        RunMore(t, q, p);
        FillsExactly(t, q, p + 1, r);
      }
    }
  }

  lemma TooBigExactly(t: bytes, q: nat, r: nat)
    requires AllDigits(t, q, r) && !IsDigit(Peek(t, r)) && q < r
    ensures BigDigits(t, q, 0).TooBig? <==> RunValue(t, q, r) >= 10 * DOUBLE_LIMIT
  {
    assert t[q..q] == [];
    FillsExactly(t, q, q, r);
    RunMore(t, q, r - 1);
  }

  /** Every integer literal, of any length: in the range of 64 bits it is reported as its exact value, the
      narrowest way; outside, as a double while it is below ten times the limit, and refused from there on. */
  lemma AnyIntegerLiteral(t: bytes, p: nat, minus: bool, q: nat, r: nat, log: seq<Event>, h: Handler)
    requires p <= |t| && q == (if minus then p + 1 else p) && minus == (Peek(t, p) == MINUS)
    requires AllDigits(t, q, r) && q < r && (t[q] == ZERO ==> r == q + 1) && Ends(Peek(t, r))
    ensures var v, read := RunValue(t, q, r), ParseNumber(t, p, log, h);
            if v <= if minus then TWO63 else TWO64 - 1 then
              exists e: Event :: Narrowest(e, minus, v) && read == Emit(h, r, log, e, r)
            else if v < 10 * DOUBLE_LIMIT then read == Emit(h, r, log, Double(t[p..r]), r)
            else read.status.Bad? && read.status.code == NumberTooBig && read.log == log
  {
    var v := RunValue(t, q, r);
    if v <= if minus then TWO63 else TWO64 - 1 {
      IntegerLiteral(t, p, minus, q, r, log, h);
      hide ParseNumber, RunValue, AllDigits;
      assert Narrowest(IntegerEvent(minus, v, []), minus, v);
    } else {
      RunStops(t, q, r);
      TooBigExactly(t, q, r);
      assert v == ValueOf(t[q..r]);
      assert t[q] == ZERO ==> v == 0 by {
        RunOne(t, q);
      }
    }
  }

  lemma DecimalAt(t: bytes, q: nat, v: nat, rest: bytes)
    requires Suffix(t, q, Decimal(v) + rest)
    ensures var r := |t| - |rest|;
            q < r && AllDigits(t, q, r) && RunValue(t, q, r) == v && (t[q] == ZERO ==> r == q + 1) &&
            Suffix(t, r, rest)
  {
    var d := Decimal(v);
    SuffixSplit(t, q, d, rest);
    assert forall k | q <= k < q + |d| :: t[k] == t[q..q + |d|][k - q];
    assert t[q] == d[0];
    DecimalDenotes(v);
  }

  lemma IntegerReadsBack(t: bytes, p: nat, n: int, rest: bytes, log: seq<Event>, h: Handler)
    requires Suffix(t, p, IntegerText(n) + rest) && -TWO63 <= n < TWO64 && Ends(First(rest)) && Agreeable(h)
    ensures |rest| <= |t| && Suffix(t, |t| - |rest|, rest)
    ensures ParseNumber(t, p, log, h)
         == Progress(|t| - |rest|, log + [NumberEvent(FromText, n, Fitting(n))], Good)
    ensures Peek(t, p) == MINUS || IsDigit(Peek(t, p))
  {
    hide ParseNumber, RunValue, AllDigits, Decimal;
    if n < 0 {
      assert [MINUS] + Decimal(-n) + rest == [MINUS] + (Decimal(-n) + rest);
      SuffixHead(t, p, MINUS, Decimal(-n) + rest);
      DigitsReadBack(t, p, -n, true, rest, log, h);
    } else {
      DigitsReadBack(t, p, n, false, rest, log, h);
    }
  }

  lemma DigitsReadBack(t: bytes, p: nat, v: nat, minus: bool, rest: bytes, log: seq<Event>, h: Handler)
    requires minus ==> p < |t| && t[p] == MINUS && v <= TWO63
    requires !minus ==> v < TWO64
    requires Suffix(t, if minus then p + 1 else p, Decimal(v) + rest) && Ends(First(rest)) && Agreeable(h)
    ensures |rest| <= |t| && Suffix(t, |t| - |rest|, rest)
    ensures ParseNumber(t, p, log, h) == Progress(|t| - |rest|, log + [IntegerEvent(minus, v, [])], Good)
    ensures !minus ==> IsDigit(Peek(t, p))
  {
    hide ParseNumber;
    var q := if minus then p + 1 else p;
    DecimalAt(t, q, v, rest);
    SuffixPeek(t, |t| - |rest|, rest);
    assert IsDigit(t[q]);
    IntegerLiteral(t, p, minus, q, |t| - |rest|, log, h);
  }

  // ---------------------------------------------------------------- white space, words

  lemma {:induction false} SpacesSkipped(t: bytes, p: nat, s: bytes, rest: bytes)
    requires Suffix(t, p, s + rest) && (forall i | 0 <= i < |s| :: IsSpace(s[i])) && !IsSpace(First(rest))
    ensures p + |s| <= |t| && SkipSpace(t, p) == p + |s| && Suffix(t, p + |s|, rest)
    decreases |s|
  {
    if s == [] {
      assert s + rest == rest;
      SuffixPeek(t, p, rest);
    } else {
      assert s + rest == [s[0]] + (s[1..] + rest);
      SuffixHead(t, p, s[0], s[1..] + rest);
      SpacesSkipped(t, p + 1, s[1..], rest);
    }
  }

  /** Skipping from a gap leads to the text behind it. */
  lemma GapSkipped(t: bytes, p: nat, lay: Layout, depth: nat, rest: bytes)
    requires ValidLayout(lay) && Suffix(t, p, Gap(lay, depth) + rest) && !IsSpace(First(rest))
    ensures |rest| <= |t| && SkipSpace(t, p) == |t| - |rest| && Suffix(t, |t| - |rest|, rest)
  {
    SpacesSkipped(t, p, Gap(lay, depth), rest);
  }

  lemma {:induction false} WordMatches(t: bytes, p: nat, word: bytes, rest: bytes)
    requires Suffix(t, p, word + rest) && forall i | 0 <= i < |word| :: word[i] != NUL
    ensures |rest| <= |t| && Word(t, p, word) == Match(true, |t| - |rest|)
    decreases |word|
  {
    if word == [] {
      assert word + rest == rest;
    } else {
      assert word + rest == [word[0]] + (word[1..] + rest);
      SuffixHead(t, p, word[0], word[1..] + rest);
      WordMatches(t, p + 1, word[1..], rest);
    }
  }

  lemma WordReadsBack(t: bytes, p: nat, first: byte, word: bytes, rest: bytes, e: Event, log: seq<Event>, h: Handler)
    requires Suffix(t, p, [first] + (word + rest)) && (forall i | 0 <= i < |word| :: word[i] != NUL) && Agreeable(h)
    ensures p < |t| && t[p] == first && |rest| <= |t|
    ensures ParseWord(t, p, log, h, word, e) == Progress(|t| - |rest|, log + [e], Good)
  {
    SuffixHead(t, p, first, word + rest);
    WordMatches(t, p + 1, word, rest);
  }

  // ---------------------------------------------------------------- values

  /** What a value's text may start with. */
  predicate StartsValue(c: byte) {
    c != NUL && !IsSpace(c) && c != RBRACKET && c != RBRACE && c != COMMA && c != COLON
  }

  lemma TextStarts(v: Value, lay: Layout, depth: nat, rest: bytes)
    requires Printable(v)
    ensures StartsValue(First(TextThen(v, lay, depth, rest)))
  {
    if v.NumberValue? {
      assert IsDigit(Decimal(if v.n < 0 then -v.n else v.n)[0]);
    }
  }

  lemma ScalarReadsBack(t: bytes, p: nat, v: Value, lay: Layout, depth: nat, rest: bytes, log: seq<Event>, h: Handler)
    requires Printable(v) && !v.ArrayValue? && !v.ObjectValue?
    requires Suffix(t, p, TextThen(v, lay, depth, rest)) && Ends(First(rest)) && Agreeable(h)
    ensures |rest| <= |t| && Suffix(t, |t| - |rest|, rest)
    ensures ParseValue(t, p, log, h) == Progress(|t| - |rest|, log + Events(v, FromText), Good)
  {
    hide ParseNumber, ParseWord, ParseArray, ParseObject, JsonGrammar.ParseString, IntegerText;
    match v
    case NullValue =>
      assert NULL_TEXT + rest == [LOWER_N] + (ULL + rest);
      WordReadsBack(t, p, LOWER_N, ULL, rest, Null, log, h);
    case BoolValue(b) =>
      if b {
        assert TRUE_TEXT + rest == [LOWER_T] + (RUE + rest);
        WordReadsBack(t, p, LOWER_T, RUE, rest, Bool(true), log, h);
      } else {
        assert FALSE_TEXT + rest == [LOWER_F] + (ALSE + rest);
        WordReadsBack(t, p, LOWER_F, ALSE, rest, Bool(false), log, h);
      }
    case NumberValue(n, _) => IntegerReadsBack(t, p, n, rest, log, h);
    case StringValue(s) => StringReadsBack(t, p, s, rest, log, h, false);
  }

  // ---------------------------------------------------------------- containers

  /** From the first element's text on. */
  function ElementsRest(vs: seq<Value>, lay: Layout, depth: nat, rest: bytes): bytes
    requires vs != []
  {
    TextThen(vs[0], lay, depth + 1,
      ElementsThen(vs[1..], lay, depth + 1, false, CloseThen(false, lay, depth, RBRACKET, rest)))
  }

  /** From the first member's name on. */
  function MembersRest(ms: seq<Member>, lay: Layout, depth: nat, rest: bytes): bytes
    requires ms != []
  {
    QuotedThen(ms[0].name, ColonThen(lay, ValueRest(ms, lay, depth, rest)))
  }

  /** From the first member's value on. */
  function ValueRest(ms: seq<Member>, lay: Layout, depth: nat, rest: bytes): bytes
    requires ms != []
  {
    TextThen(ms[0].value, lay, depth + 1,
      MembersThen(ms[1..], lay, depth + 1, false, CloseThen(false, lay, depth, RBRACE, rest)))
  }

  lemma PrintableElements(vs: seq<Value>)
    requires vs != [] && Printable(ArrayValue(vs))
    ensures Printable(vs[0]) && Printable(ArrayValue(vs[1..]))
  {
  }

  lemma PrintableMembers(ms: seq<Member>)
    requires ms != [] && Printable(ObjectValue(ms))
    ensures Printable(ms[0].value) && Printable(ObjectValue(ms[1..]))
  {
  }

  lemma ArrayText(vs: seq<Value>, lay: Layout, depth: nat, rest: bytes)
    ensures TextThen(ArrayValue(vs), lay, depth, rest)
         == [LBRACKET] + if vs == [] then [RBRACKET] + rest else Gap(lay, depth + 1) + ElementsRest(vs, lay, depth, rest)
  {
  }

  lemma ObjectText(ms: seq<Member>, lay: Layout, depth: nat, rest: bytes)
    ensures TextThen(ObjectValue(ms), lay, depth, rest)
         == [LBRACE] + if ms == [] then [RBRACE] + rest else Gap(lay, depth + 1) + MembersRest(ms, lay, depth, rest)
  {
  }

  /** What follows the first element. */
  function ElementsTail(vs: seq<Value>, lay: Layout, depth: nat, rest: bytes): bytes
    requires vs != []
  {
    if |vs| == 1 then Gap(lay, depth) + ([RBRACKET] + rest)
    else [COMMA] + (Gap(lay, depth + 1) + ElementsRest(vs[1..], lay, depth, rest))
  }

  lemma ElementsText(vs: seq<Value>, lay: Layout, depth: nat, rest: bytes)
    requires vs != []
    ensures ElementsRest(vs, lay, depth, rest) == TextThen(vs[0], lay, depth + 1, ElementsTail(vs, lay, depth, rest))
    ensures ValidLayout(lay) ==> Ends(First(ElementsTail(vs, lay, depth, rest)))
  {
  }

  /** What follows the first member. */
  function MembersTail(ms: seq<Member>, lay: Layout, depth: nat, rest: bytes): bytes
    requires ms != []
  {
    if |ms| == 1 then Gap(lay, depth) + ([RBRACE] + rest)
    else [COMMA] + (Gap(lay, depth + 1) + MembersRest(ms[1..], lay, depth, rest))
  }

  lemma MembersText(ms: seq<Member>, lay: Layout, depth: nat, rest: bytes)
    requires ms != []
    ensures MembersRest(ms, lay, depth, rest)
         == QuotedThen(ms[0].name, ColonThen(lay, ValueRest(ms, lay, depth, rest)))
  {
  }

  lemma ValueText(ms: seq<Member>, lay: Layout, depth: nat, rest: bytes)
    requires ms != []
    ensures ValueRest(ms, lay, depth, rest)
         == TextThen(ms[0].value, lay, depth + 1, MembersTail(ms, lay, depth, rest))
    ensures ValidLayout(lay) ==> Ends(First(MembersTail(ms, lay, depth, rest)))
  {
  }

  lemma ElementsStart(vs: seq<Value>, lay: Layout, depth: nat, rest: bytes)
    requires vs != [] && Printable(vs[0])
    ensures StartsValue(First(ElementsRest(vs, lay, depth, rest)))
  {
    TextStarts(vs[0], lay, depth + 1,
               ElementsThen(vs[1..], lay, depth + 1, false, CloseThen(false, lay, depth, RBRACKET, rest)));
  }

  // ---------------------------------------------------------------- reading brackets and commas

  lemma ArrayOpens(t: bytes, p: nat, log: seq<Event>, h: Handler)
    requires p < |t| && t[p] == LBRACKET && Agreeable(h) && Peek(t, SkipSpace(t, p + 1)) != RBRACKET
    ensures ParseValue(t, p, log, h) == Elements(t, SkipSpace(t, p + 1), log + [StartArray], h, 0)
  {
    hide Elements, ParseObject, ParseScalar;
    assert ParseValue(t, p, log, h) == ParseArray(t, p, log, h);
    assert ParseArray(t, p, log, h) == ArrayOpen(t, SkipSpace(t, p + 1), log + [StartArray], h);
  }

  lemma ObjectOpens(t: bytes, p: nat, log: seq<Event>, h: Handler)
    requires p < |t| && t[p] == LBRACE && Agreeable(h) && Peek(t, SkipSpace(t, p + 1)) != RBRACE
    ensures ParseValue(t, p, log, h) == JsonGrammar.Members(t, SkipSpace(t, p + 1), log + [StartObject], h, 0)
  {
    hide JsonGrammar.Members, ParseArray, ParseScalar;
    assert ParseValue(t, p, log, h) == ParseObject(t, p, log, h);
    assert ParseObject(t, p, log, h) == ObjectOpen(t, SkipSpace(t, p + 1), log + [StartObject], h);
  }

  lemma OpenRead(t: bytes, p: nat, open: byte, lay: Layout, depth: nat, rest: bytes, log: seq<Event>, h: Handler)
    requires ValidLayout(lay) && Agreeable(h) && (open == LBRACKET || open == LBRACE) && StartsValue(First(rest))
    requires Suffix(t, p, [open] + (Gap(lay, depth) + rest))
    ensures |rest| <= |t| && Suffix(t, |t| - |rest|, rest)
    ensures ParseValue(t, p, log, h)
         == if open == LBRACKET then Elements(t, |t| - |rest|, log + [StartArray], h, 0)
            else JsonGrammar.Members(t, |t| - |rest|, log + [StartObject], h, 0)
  {
    hide ParseValue, Elements, JsonGrammar.Members, Gap;
    SuffixHead(t, p, open, Gap(lay, depth) + rest);
    GapSkipped(t, p + 1, lay, depth, rest);
    SuffixPeek(t, |t| - |rest|, rest);
    if open == LBRACKET {
      ArrayOpens(t, p, log, h);
    } else {
      ObjectOpens(t, p, log, h);
    }
  }

  lemma EmptyRead(t: bytes, p: nat, open: byte, close: byte, rest: bytes, log: seq<Event>, h: Handler)
    requires Agreeable(h) && ((open == LBRACKET && close == RBRACKET) || (open == LBRACE && close == RBRACE))
    requires Suffix(t, p, [open] + ([close] + rest))
    ensures |rest| <= |t| && Suffix(t, |t| - |rest|, rest)
    ensures ParseValue(t, p, log, h)
         == Progress(|t| - |rest|,
                     if open == LBRACKET then log + [StartArray] + [EndArray(0)]
                     else log + [StartObject] + [EndObject(0)],
                     Good)
  {
    hide Elements, JsonGrammar.Members;
    SuffixHead(t, p, open, [close] + rest);
    SuffixHead(t, p + 1, close, rest);
    assert SkipSpace(t, p + 1) == p + 1;
    assert ParseValue(t, p, log, h)
        == if open == LBRACKET then ParseArray(t, p, log, h) else ParseObject(t, p, log, h);
  }

  lemma CommaRead(t: bytes, q: nat, lay: Layout, depth: nat, rest: bytes, log: seq<Event>, h: Handler, n: nat)
    requires ValidLayout(lay) && StartsValue(First(rest))
    requires Suffix(t, q, [COMMA] + (Gap(lay, depth) + rest))
    ensures |rest| <= |t| && Suffix(t, |t| - |rest|, rest)
    ensures AfterElement(t, q, log, h, n) == Elements(t, |t| - |rest|, log, h, n + 1)
    ensures AfterMember(t, q, log, h, n) == JsonGrammar.Members(t, |t| - |rest|, log, h, n + 1)
  {
    hide Elements, JsonGrammar.Members;
    SuffixHead(t, q, COMMA, Gap(lay, depth) + rest);
    GapSkipped(t, q + 1, lay, depth, rest);
    assert SkipSpace(t, q) == q;
  }

  lemma CloseRead(t: bytes, q: nat, lay: Layout, depth: nat, close: byte, rest: bytes, log: seq<Event>, h: Handler,
                  n: nat)
    requires ValidLayout(lay) && Agreeable(h) && Suffix(t, q, Gap(lay, depth) + ([close] + rest))
    requires close == RBRACKET || close == RBRACE
    ensures |rest| <= |t| && Suffix(t, |t| - |rest|, rest)
    ensures close == RBRACKET ==>
      AfterElement(t, q, log, h, n) == Progress(|t| - |rest|, log + [EndArray(n + 1)], Good)
    ensures close == RBRACE ==>
      AfterMember(t, q, log, h, n) == Progress(|t| - |rest|, log + [EndObject(n + 1)], Good)
  {
    hide Elements, JsonGrammar.Members;
    GapSkipped(t, q, lay, depth, [close] + rest);
    SuffixHead(t, |t| - |rest| - 1, close, rest);
  }

  lemma ColonGapSkipped(t: bytes, p: nat, lay: Layout, rest: bytes)
    requires Suffix(t, p, ColonGap(lay) + rest) && StartsValue(First(rest))
    ensures |rest| <= |t| && Suffix(t, |t| - |rest|, rest) && SkipSpace(t, p) == |t| - |rest|
  {
    SpacesSkipped(t, p, ColonGap(lay), rest);
  }

  lemma ColonRead(t: bytes, q: nat, lay: Layout, rest: bytes, log: seq<Event>, h: Handler, n: nat)
    requires Suffix(t, q, ColonThen(lay, rest)) && StartsValue(First(rest))
    ensures |rest| <= |t| && Suffix(t, |t| - |rest|, rest)
    ensures AfterKey(t, q, log, h, n) == MemberValue(t, |t| - |rest|, log, h, n)
  {
    hide MemberValue, ColonGap, StartsValue, Suffix;
    SuffixHead(t, q, COLON, ColonGap(lay) + rest);
    assert SkipSpace(t, q) == q;
    ColonGapSkipped(t, q + 1, lay, rest);
  }

  lemma NameRead(t: bytes, p: nat, name: bytes, rest: bytes, log: seq<Event>, h: Handler, n: nat)
    requires Suffix(t, p, QuotedThen(name, rest)) && Agreeable(h)
    ensures |rest| <= |t| && Suffix(t, |t| - |rest|, rest)
    ensures JsonGrammar.Members(t, p, log, h, n) == AfterKey(t, |t| - |rest|, log + [Key(name)], h, n)
  {
    hide AfterKey, QuotedThen;
    StringReadsBack(t, p, name, rest, log, h, true);
  }

  lemma MembersStart(ms: seq<Member>, lay: Layout, depth: nat, rest: bytes)
    requires ms != []
    ensures StartsValue(First(MembersRest(ms, lay, depth, rest)))
  {
  }

  lemma ValueStart(ms: seq<Member>, lay: Layout, depth: nat, rest: bytes)
    requires ms != [] && Printable(ms[0].value)
    ensures StartsValue(First(ValueRest(ms, lay, depth, rest)))
  {
    TextStarts(ms[0].value, lay, depth + 1,
               MembersThen(ms[1..], lay, depth + 1, false, CloseThen(false, lay, depth, RBRACE, rest)));
  }

  lemma ValueRead(t: bytes, p: nat, q: nat, log: seq<Event>, log1: seq<Event>, h: Handler, n: nat)
    requires p <= |t| && ParseValue(t, p, log, h) == Progress(q, log1, Good)
    ensures q <= |t|
    ensures Elements(t, p, log, h, n) == AfterElement(t, q, log1, h, n)
    ensures MemberValue(t, p, log, h, n) == AfterMember(t, q, log1, h, n)
  {
    hide ParseValue, AfterElement, AfterMember;
  }

  // ---------------------------------------------------------------- whole values

  /** The text of a value, in any layout, is accepted and reported as the value's events. */
  lemma {:induction false} ReadsBack(t: bytes, p: nat, v: Value, lay: Layout, depth: nat, rest: bytes,
                                     log: seq<Event>, h: Handler)
    requires Printable(v) && ValidLayout(lay) && Agreeable(h)
    requires Suffix(t, p, TextThen(v, lay, depth, rest)) && Ends(First(rest))
    ensures |rest| <= |t| && Suffix(t, |t| - |rest|, rest)
    ensures ParseValue(t, p, log, h) == Progress(|t| - |rest|, log + Events(v, FromText), Good)
    decreases v, 1
  {
    hide ParseValue, Suffix, Printable, TextThen, Events;
    match v
    case ArrayValue(vs) => ArrayReadsBack(t, p, vs, lay, depth, rest, log, h);
    case ObjectValue(ms) => ObjectReadsBack(t, p, ms, lay, depth, rest, log, h);
    case _ => ScalarReadsBack(t, p, v, lay, depth, rest, log, h);
  }

  lemma {:induction false} ArrayReadsBack(t: bytes, p: nat, vs: seq<Value>, lay: Layout, depth: nat, rest: bytes,
                                          log: seq<Event>, h: Handler)
    requires Printable(ArrayValue(vs)) && ValidLayout(lay) && Agreeable(h)
    requires Suffix(t, p, TextThen(ArrayValue(vs), lay, depth, rest))
    ensures |rest| <= |t| && Suffix(t, |t| - |rest|, rest)
    ensures ParseValue(t, p, log, h) == Progress(|t| - |rest|, log + Events(ArrayValue(vs), FromText), Good)
    decreases vs, 1
  {
    hide ParseValue, Elements, Suffix, Printable, TextThen, ElementsRest;
    ArrayText(vs, lay, depth, rest);
    Surrounded(log, StartArray, ElementEvents(vs, FromText), EndArray(|vs|));
    assert Events(ArrayValue(vs), FromText) == [StartArray] + ElementEvents(vs, FromText) + [EndArray(|vs|)];
    assert vs == [] ==> ElementEvents(vs, FromText) == [];
    hide Events, ElementEvents;
    if vs == [] {
      EmptyRead(t, p, LBRACKET, RBRACKET, rest, log, h);
    } else {
      var body := ElementsRest(vs, lay, depth, rest);
      PrintableElements(vs);
      ElementsStart(vs, lay, depth, rest);
      OpenRead(t, p, LBRACKET, lay, depth + 1, body, log, h);
      ElementsReadBack(t, |t| - |body|, vs, lay, depth, rest, log + [StartArray], h, 0);
    }
  }

  lemma {:induction false} ObjectReadsBack(t: bytes, p: nat, ms: seq<Member>, lay: Layout, depth: nat, rest: bytes,
                                           log: seq<Event>, h: Handler)
    requires Printable(ObjectValue(ms)) && ValidLayout(lay) && Agreeable(h)
    requires Suffix(t, p, TextThen(ObjectValue(ms), lay, depth, rest))
    ensures |rest| <= |t| && Suffix(t, |t| - |rest|, rest)
    ensures ParseValue(t, p, log, h) == Progress(|t| - |rest|, log + Events(ObjectValue(ms), FromText), Good)
    decreases ms, 1
  {
    hide ParseValue, JsonGrammar.Members, Suffix, Printable, TextThen, MembersRest;
    ObjectText(ms, lay, depth, rest);
    Surrounded(log, StartObject, MemberEvents(ms, FromText), EndObject(|ms|));
    assert Events(ObjectValue(ms), FromText) == [StartObject] + MemberEvents(ms, FromText) + [EndObject(|ms|)];
    assert ms == [] ==> MemberEvents(ms, FromText) == [];
    hide Events, MemberEvents;
    if ms == [] {
      EmptyRead(t, p, LBRACE, RBRACE, rest, log, h);
    } else {
      var body := MembersRest(ms, lay, depth, rest);
      MembersStart(ms, lay, depth, rest);
      OpenRead(t, p, LBRACE, lay, depth + 1, body, log, h);
      MembersReadBack(t, |t| - |body|, ms, lay, depth, rest, log + [StartObject], h, 0);
    }
  }

  lemma Surrounded(log: seq<Event>, open: Event, body: seq<Event>, close: Event)
    ensures log + [open] + body + [close] == log + ([open] + body + [close])
    ensures body == [] ==> log + [open] + [close] == log + ([open] + body + [close])
  {
  }

  lemma {:induction false} ElementsReadBack(t: bytes, p: nat, vs: seq<Value>, lay: Layout, depth: nat, rest: bytes,
                                            log: seq<Event>, h: Handler, n: nat)
    requires vs != [] && Printable(ArrayValue(vs)) && ValidLayout(lay) && Agreeable(h)
    requires Suffix(t, p, ElementsRest(vs, lay, depth, rest))
    ensures |rest| <= |t| && Suffix(t, |t| - |rest|, rest)
    ensures Elements(t, p, log, h, n)
         == Progress(|t| - |rest|, log + ElementEvents(vs, FromText) + [EndArray(n + |vs|)], Good)
    decreases vs, 0
  {
    hide ParseValue, Elements, AfterElement, AfterMember, MemberValue, Suffix, Printable, TextThen, ElementsRest,
         Events;
    PrintableElements(vs);
    ElementsText(vs, lay, depth, rest);
    var tail := ElementsTail(vs, lay, depth, rest);
    var log1 := log + Events(vs[0], FromText);
    ReadsBack(t, p, vs[0], lay, depth + 1, tail, log, h);
    ValueRead(t, p, |t| - |tail|, log, log1, h, n);
    if |vs| == 1 {
      CloseRead(t, |t| - |tail|, lay, depth, RBRACKET, rest, log1, h, n);
      assert ElementEvents(vs, FromText) == Events(vs[0], FromText);
    } else {
      var body := ElementsRest(vs[1..], lay, depth, rest);
      PrintableElements(vs[1..]);
      ElementsStart(vs[1..], lay, depth, rest);
      CommaRead(t, |t| - |tail|, lay, depth + 1, body, log1, h, n);
      ElementsReadBack(t, |t| - |body|, vs[1..], lay, depth, rest, log1, h, n + 1);
      assert log1 + ElementEvents(vs[1..], FromText) == log + ElementEvents(vs, FromText);
    }
  }

  /** The events of a member. */
  function MemberLog(log: seq<Event>, m: Member): seq<Event> {
    log + [Key(m.name)] + Events(m.value, FromText)
  }

  lemma {:induction false} MemberReadsBack(t: bytes, p: nat, ms: seq<Member>, lay: Layout, depth: nat, rest: bytes,
                                           log: seq<Event>, h: Handler, n: nat)
    requires ms != [] && Printable(ms[0].value) && ValidLayout(lay) && Agreeable(h)
    requires Suffix(t, p, MembersRest(ms, lay, depth, rest))
    ensures var tail := MembersTail(ms, lay, depth, rest);
            && |tail| <= |t| && Suffix(t, |t| - |tail|, tail)
            && JsonGrammar.Members(t, p, log, h, n) == AfterMember(t, |t| - |tail|, MemberLog(log, ms[0]), h, n)
    decreases ms[0].value, 3
  {
    hide ParseValue, MemberValue, AfterMember, AfterKey, JsonGrammar.Members, Suffix, Printable, TextThen, ValueRest,
         MembersRest, QuotedThen, ColonThen, MembersTail;
    var value := ValueRest(ms, lay, depth, rest);
    var colon := ColonThen(lay, value);
    MembersText(ms, lay, depth, rest);
    NameRead(t, p, ms[0].name, colon, log, h, n);
    ValueStart(ms, lay, depth, rest);
    ColonRead(t, |t| - |colon|, lay, value, log + [Key(ms[0].name)], h, n);
    ValueText(ms, lay, depth, rest);
    var tail := MembersTail(ms, lay, depth, rest);
    ReadsBack(t, |t| - |value|, ms[0].value, lay, depth + 1, tail, log + [Key(ms[0].name)], h);
    ValueRead(t, |t| - |value|, |t| - |tail|, log + [Key(ms[0].name)], MemberLog(log, ms[0]), h, n);
  }

  lemma Regroup(a: seq<Event>, b: seq<Event>, c: seq<Event>, d: seq<Event>)
    ensures a + b + c + d == a + (b + c + d)
  {
    var l, r := a + b + c + d, a + (b + c + d);
    assert |l| == |r|;
    forall i | 0 <= i < |l| ensures l[i] == r[i] {
    }
  }

  lemma MemberLogMore(log: seq<Event>, ms: seq<Member>)
    requires ms != []
    ensures MemberLog(log, ms[0]) + MemberEvents(ms[1..], FromText) == log + MemberEvents(ms, FromText)
    ensures |ms| == 1 ==> MemberLog(log, ms[0]) == log + MemberEvents(ms, FromText)
  {
    var key, es, rest := [Key(ms[0].name)], Events(ms[0].value, FromText), MemberEvents(ms[1..], FromText);
    assert MemberEvents(ms, FromText) == key + es + rest;
    assert |ms| == 1 ==> rest == [];
    hide Events, MemberEvents;
    Regroup(log, key, es, rest);
    if |ms| == 1 {
      assert log + key + es + [] == log + key + es;
    }
  }

  lemma {:induction false} MembersReadBack(t: bytes, p: nat, ms: seq<Member>, lay: Layout, depth: nat, rest: bytes,
                                           log: seq<Event>, h: Handler, n: nat)
    requires ms != [] && Printable(ObjectValue(ms)) && ValidLayout(lay) && Agreeable(h)
    requires Suffix(t, p, MembersRest(ms, lay, depth, rest))
    ensures |rest| <= |t| && Suffix(t, |t| - |rest|, rest)
    ensures JsonGrammar.Members(t, p, log, h, n)
         == Progress(|t| - |rest|, log + MemberEvents(ms, FromText) + [EndObject(n + |ms|)], Good)
    decreases ms, 0
  {
    hide AfterMember, JsonGrammar.Members, Suffix, Printable, MembersRest, Events, MemberEvents, MemberLog;
    PrintableMembers(ms);
    MemberLogMore(log, ms);
    MemberReadsBack(t, p, ms, lay, depth, rest, log, h, n);
    var tail := MembersTail(ms, lay, depth, rest);
    var log1 := MemberLog(log, ms[0]);
    if |ms| == 1 {
      CloseRead(t, |t| - |tail|, lay, depth, RBRACE, rest, log1, h, n);
    } else {
      var body := MembersRest(ms[1..], lay, depth, rest);
      MembersStart(ms[1..], lay, depth, rest);
      CommaRead(t, |t| - |tail|, lay, depth + 1, body, log1, h, n);
      MembersReadBack(t, |t| - |body|, ms[1..], lay, depth, rest, log1, h, n + 1);
    }
  }

  // ---------------------------------------------------------------- documents

  /** Parsing the text of a value gives the value's events. */
  lemma DocumentReadsBack(v: Value, lay: Layout, h: Handler, stopWhenDone: bool)
    requires Printable(v) && ValidLayout(lay) && Agreeable(h)
    ensures var r := ParseDocument(Text(v, lay), h, stopWhenDone);
            r.status.Good? && r.log == Events(v, FromText)
  {
    var t := Text(v, lay);
    assert t[0..] == t;
    TextStarts(v, lay, 0, []);
    assert SkipSpace(t, 0) == 0;
    ReadsBack(t, 0, v, lay, 0, [], [], h);
    assert SkipSpace(t, |t|) == |t|;
    assert [] + Events(v, FromText) == Events(v, FromText);
  }

  /** A root in the middle of a stream, read with stop-when-done: the cursor is left where the next may start. */
  lemma RootReadsBack(t: bytes, p: nat, v: Value, lay: Layout, rest: bytes, log: seq<Event>, h: Handler)
    requires Printable(v) && ValidLayout(lay) && Agreeable(h)
    requires Suffix(t, p, TextThen(v, lay, 0, rest)) && Ends(First(rest))
    ensures |rest| <= |t| && Suffix(t, |t| - |rest|, rest)
    ensures ParseFrom(t, p, log, h, true) == Progress(|t| - |rest|, log + Events(v, FromText), Good)
  {
    hide ParseValue, TextThen, Events;
    TextStarts(v, lay, 0, rest);
    SuffixPeek(t, p, TextThen(v, lay, 0, rest));
    assert SkipSpace(t, p) == p;
    ReadsBack(t, p, v, lay, 0, rest, log, h);
  }

  /** The document as handler never stops the parse. */
  const ALWAYS: Handler := (log: seq<Event>) => true

  /** Document::Parse: replay the reader's events on the document's stack and pop the root. */
  function ParseDom(t: bytes): Option<Value> {
    var r := ParseDocument(t, ALWAYS, false);
    if r.status.Bad? then None
    else match HandleAll([], r.log)
      case None => None
      case Some(stack) => if |stack| == 1 then Some(stack[0]) else None
  }

  /** Writing a value with Writer or PrettyWriter and parsing the text gives the value back. */
  lemma ParseInvertsText(v: Value, lay: Layout)
    requires Printable(v) && ValidLayout(lay)
    ensures ParseDom(Text(v, lay)) == Some(v)
  {
    DocumentReadsBack(v, lay, ALWAYS, false);
    Builds([], v, FromText);
  }

  /** So different values have different texts. */
  lemma TextInjective(v: Value, w: Value, lay: Layout)
    requires Printable(v) && Printable(w) && ValidLayout(lay) && Text(v, lay) == Text(w, lay)
    ensures v == w
  {
    ParseInvertsText(v, lay);
    ParseInvertsText(w, lay);
  }
}
