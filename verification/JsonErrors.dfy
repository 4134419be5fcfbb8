/** What the error of a refused text tells: its code says what was expected, and the byte at its offset, or next to
    it, is not that. */
module JsonErrors {
  import opened Bytes
  import opened JsonEvents
  import opened JsonGrammar
  import M = JsonMachine

  function At(t: bytes, i: int): byte {
    if i < 0 then NUL else Peek(t, i)
  }

  predicate Blank(c: byte) {
    c == ' ' as int || c == '\t' as int || c == '\n' as int || c == '\r' as int
  }

  predicate Digit(c: byte) {
    '0' as int <= c <= '9' as int
  }

  predicate Hexadecimal(c: byte) {
    Digit(c) || 'a' as int <= c <= 'f' as int || 'A' as int <= c <= 'F' as int
  }

  predicate AnE(c: byte) {
    c == 'e' as int || c == 'E' as int
  }

  /** The first k letters of a word stand before position i, and the next is not there. */
  predicate Misspelt(t: bytes, i: int, word: bytes) {
    exists k | 1 <= k < |word| :: 0 <= i - k <= |t| && i <= |t| && t[i - k..i] == word[..k] && At(t, i) != word[k]
  }

  /** White space aside, position i is where a parse from position from starts, or is after an opening bracket, a comma
      or a colon. */
  predicate Placed(t: bytes, from: nat, i: int) {
    exists j | from <= j <= i :: Follows(t, from, j) && forall k | j <= k < i :: Blank(At(t, k))
  }

  predicate Follows(t: bytes, from: nat, j: nat) {
    || j == from
    || At(t, j - 1) == '[' as int || At(t, j - 1) == ',' as int || At(t, j - 1) == ':' as int
  }

  /** Where a value, or a number behind its sign, has to start, none does; or a word goes wrong there. */
  predicate NoValueAt(t: bytes, from: nat, i: int) {
    || (!Digit(At(t, i)) && (Placed(t, from, i) || (At(t, i - 1) == '-' as int && Placed(t, from, i - 1))))
    || Misspelt(t, i, Ascii("null")) || Misspelt(t, i, Ascii("true")) || Misspelt(t, i, Ascii("false"))
  }

  /** A backslash with nothing behind it that may stand there, or a control character. */
  predicate NoCharAt(t: bytes, i: int) {
    || (At(t, i - 1) == '\\' as int
        && (forall k | 0 <= k < 9 :: At(t, i) != Ascii("\"\\/bfnrtu")[k]))
    || 0 < At(t, i + 1) < 32
  }

  /** An escaped high surrogate is not followed by an escaped low one. */
  predicate NoPairAt(t: bytes, i: int) {
    || At(t, i + 1) != '\\' as int
    || (At(t, i) == '\\' as int && At(t, i + 1) != 'u' as int)
    || (At(t, i - 4) == '\\' as int && At(t, i - 3) == 'u' as int)
  }

  predicate Tells(t: bytes, from: nat, code: ErrorCode, i: int) {
    match code
    case DocumentEmpty => At(t, i) == 0
    case DocumentRootNotSingular => At(t, i) != 0 && !Blank(At(t, i))
    case ValueInvalid => NoValueAt(t, from, i)
    case ObjectMissName => At(t, i) != '"' as int
    case ObjectMissColon => At(t, i - 1) != ':' as int && !Blank(At(t, i - 1))
    case ObjectMissCommaOrCurlyBracket =>
      At(t, i - 1) != ',' as int && At(t, i - 1) != '}' as int && !Blank(At(t, i - 1))
    case ArrayMissCommaOrSquareBracket =>
      At(t, i - 1) != ',' as int && At(t, i - 1) != ']' as int && !Blank(At(t, i - 1))
    case StringUnicodeEscapeInvalidHex => !Hexadecimal(At(t, i))
    case StringUnicodeSurrogateInvalid => NoPairAt(t, i)
    case StringEscapeInvalid => NoCharAt(t, i)
    case StringMissQuotationMark => At(t, i + 1) == 0
    case NumberTooBig => Digit(At(t, i)) || Digit(At(t, i - 1))
    case NumberMissFraction => At(t, i - 1) == '.' as int && !Digit(At(t, i))
    case NumberMissExponent =>
      && !Digit(At(t, i))
      && (AnE(At(t, i - 1)) || ((At(t, i - 1) == '+' as int || At(t, i - 1) == '-' as int) && AnE(At(t, i - 2))))
    case Termination => true
    case UnspecificSyntaxError => false
  }

  /** A handler's refusal is told apart from an error in the text. */
  predicate Telling(t: bytes, from: nat, h: Handler, r: Progress) {
    if r.status.Good? then Agreed(h, r.log)
    else Tells(t, from, r.status.code, r.status.offset) && (r.status.code == Termination <==> !Agreed(h, r.log))
  }

  /** The handler has not refused the last event. */
  predicate Agreed(h: Handler, log: seq<Event>) {
    log == [] || h(log)
  }

  /** An error inside a word, a string or a number. */
  predicate InToken(code: ErrorCode) {
    || code.ValueInvalid? || code.StringUnicodeEscapeInvalidHex? || code.StringUnicodeSurrogateInvalid?
    || code.StringEscapeInvalid? || code.StringMissQuotationMark?
    || code.NumberTooBig? || code.NumberMissFraction? || code.NumberMissExponent?
  }

  predicate TokenEnds(r: Progress) {
    r.status.Bad? ==> InToken(r.status.code) || r.status.code == Termination
  }

  // ---------------------------------------------------------------- scalars

  lemma EmitTells(t: bytes, from: nat, h: Handler, pos: nat, log: seq<Event>, e: Event, at: nat)
    ensures Telling(t, from, h, Emit(h, pos, log, e, at))
  {
  }

  lemma {:induction false} WordTells(t: bytes, p: nat, word: bytes, k: nat)
    requires 1 <= k <= |word| && k <= p <= |t| && t[p - k..p] == word[..k]
    requires forall i | 0 <= i < |word| :: word[i] != NUL
    ensures var m := Word(t, p, word[k..]); m.ok || Misspelt(t, m.next - 1, word)
    decreases |word| - k
  {
    hide Misspelt;
    if k < |word| {
      if Peek(t, p) == word[k] {
        OneMore(t, p, word, k);
        WordTells(t, p + 1, word, k + 1);
      } else {
        SpeltWrong(t, p, word, k);
      }
    }
  }

  lemma OneMore(t: bytes, p: nat, word: bytes, k: nat)
    requires k < |word| && k <= p < |t| && t[p - k..p] == word[..k] && t[p] == word[k]
    ensures t[p + 1 - (k + 1)..p + 1] == word[..k + 1] && word[k..][1..] == word[k + 1..]
  {
    assert t[p - k..p + 1] == t[p - k..p] + [t[p]];
    assert word[..k + 1] == word[..k] + [word[k]];
  }

  lemma SpeltWrong(t: bytes, p: nat, word: bytes, k: nat)
    requires 1 <= k < |word| && k <= p <= |t| && t[p - k..p] == word[..k] && Peek(t, p) != word[k]
    ensures Misspelt(t, p, word)
  {
    assert t[p - k..p] == word[..k];
  }

  lemma ParseWordTells(t: bytes, from: nat, p: nat, log: seq<Event>, h: Handler, word: bytes, e: Event)
    requires p < |t| && |word| > 0 && t[p] == word[0] && forall i | 0 <= i < |word| :: word[i] != NUL
    requires word == Ascii("null") || word == Ascii("true") || word == Ascii("false")
    requires Agreed(h, log)
    ensures Telling(t, from, h, ParseWord(t, p, log, h, word[1..], e))
    ensures TokenEnds(ParseWord(t, p, log, h, word[1..], e))
  {
    hide Misspelt, Word, Ascii;
    assert t[p..p + 1] == word[..1];
    WordTells(t, p + 1, word, 1);
  }

  lemma {:induction false} HexTells(t: bytes, p: nat, i: nat, acc: nat)
    requires i <= 4 && p <= |t| && acc < Hex4Range(i) && Hex4(t, p, i, acc).HexBad?
    ensures !Hexadecimal(At(t, Hex4(t, p, i, acc).at))
    decreases 4 - i
  {
    Hex4Step(t, p, i, acc);
    hide Hex4;
    if HexDigit(Peek(t, p)) >= 0 {
      HexTells(t, p + 1, i + 1, acc * 16 + HexDigit(Peek(t, p)));
    }
  }

  lemma TrailTells(t: bytes, from: nat, q: nat, lead: nat)
    requires q <= |t| && 0xD800 <= lead <= 0xDBFF && TrailEscape(t, q, lead).Broken?
    ensures Tells(t, from, TrailEscape(t, q, lead).code, TrailEscape(t, q, lead).offset)
    ensures InToken(TrailEscape(t, q, lead).code)
  {
    hide Hex4, Hexadecimal;
    if Peek(t, q) == BACKSLASH && Peek(t, q + 1) == LOWER_U && Hex4(t, q + 2, 0, 0).HexBad? {
      HexTells(t, q + 2, 0, 0);
    }
  }

  lemma EscapeTells(t: bytes, from: nat, p: nat)
    requires p < |t| && t[p] == BACKSLASH && JsonGrammar.Escape(t, p).Broken?
    ensures Tells(t, from, JsonGrammar.Escape(t, p).code, JsonGrammar.Escape(t, p).offset)
    ensures InToken(JsonGrammar.Escape(t, p).code)
  {
    hide Hex4, Hexadecimal, TrailEscape, Tells;
    var e := Peek(t, p + 1);
    if ShortEscape(e) == 0 && e == LOWER_U {
      if Hex4(t, p + 2, 0, 0).HexBad? {
        HexTells(t, p + 2, 0, 0);
        BadHexTells(t, from, Hex4(t, p + 2, 0, 0).at);
      } else {
        TrailTells(t, from, p + 6, Hex4(t, p + 2, 0, 0).codepoint);
      }
    } else {
      BadEscapeTells(t, from, p);
    }
  }

  lemma BadHexTells(t: bytes, from: nat, at: nat)
    requires !Hexadecimal(At(t, at))
    ensures Tells(t, from, StringUnicodeEscapeInvalidHex, at)
  {
  }

  lemma BadEscapeTells(t: bytes, from: nat, p: nat)
    requires p < |t| && t[p] == BACKSLASH && ShortEscape(Peek(t, p + 1)) == 0 && Peek(t, p + 1) != LOWER_U
    ensures Tells(t, from, StringEscapeInvalid, p + 1)
  {
  }

  lemma UnitTells(t: bytes, from: nat, p: nat)
    requires p <= |t| && NextUnit(t, p).Broken?
    ensures Tells(t, from, NextUnit(t, p).code, NextUnit(t, p).offset) && InToken(NextUnit(t, p).code)
  {
    hide JsonGrammar.Escape;
    if Peek(t, p) == BACKSLASH {
      EscapeTells(t, from, p);
    }
  }

  lemma {:induction false} BodyTells(t: bytes, from: nat, p: nat)
    requires p <= |t| && Body(t, p).Refused?
    ensures Tells(t, from, Body(t, p).code, Body(t, p).offset) && InToken(Body(t, p).code)
    decreases |t| - p
  {
    hide Tells;
    match NextUnit(t, p)
    case Broken(_, _, _) => UnitTells(t, from, p);
    case Piece(q, _) => hide NextUnit; BodyTells(t, from, q);
  }

  lemma StringTells(t: bytes, from: nat, p: nat, log: seq<Event>, h: Handler, isKey: bool)
    requires p < |t| && Agreed(h, log)
    ensures Telling(t, from, h, ParseString(t, p, log, h, isKey)) && TokenEnds(ParseString(t, p, log, h, isKey))
  {
    hide Body, Tells, Agreed;
    if Body(t, p + 1).Refused? {
      BodyTells(t, from, p + 1);
    } else {
      var b := Body(t, p + 1);
      EmitTells(t, from, h, b.next, log, if isKey then Key(b.s) else String(b.s), b.next);
    }
  }

  // ---------------------------------------------------------------- numbers

  lemma {:induction false} BigTells(t: bytes, from: nat, p: nat, d: nat)
    requires p <= |t| && BigDigits(t, p, d).TooBig?
    ensures Tells(t, from, NumberTooBig, BigDigits(t, p, d).at)
    decreases |t| - p
  {
    if d < DOUBLE_LIMIT {
      BigTells(t, from, p + 1, d * 10 + (t[p] - ZERO));
    }
  }

  lemma {:induction false} ExpTells(t: bytes, from: nat, p: nat, exp: nat, minus: bool)
    requires p <= |t| && ExpDigits(t, p, exp, minus).TooBig?
    ensures Tells(t, from, NumberTooBig, ExpDigits(t, p, exp, minus).at)
    decreases |t| - p
  {
    var more := exp * 10 + (t[p] - ZERO);
    if more <= 308 || minus {
      ExpTells(t, from, p + 1, more, minus);
    }
  }

  lemma FractionTells(t: bytes, from: nat, p: nat)
    requires p <= |t| && Fraction(t, p).error.Bad?
    ensures Tells(t, from, Fraction(t, p).error.code, Fraction(t, p).error.offset) && InToken(Fraction(t, p).error.code)
  {
  }

  lemma ExponentTells(t: bytes, from: nat, p: nat)
    requires p <= |t| && Exponent(t, p).error.Bad?
    ensures Tells(t, from, Exponent(t, p).error.code, Exponent(t, p).error.offset) && InToken(Exponent(t, p).error.code)
  {
    hide ExpDigits;
    var c := Peek(t, p + 1);
    var q := if c == PLUS || c == MINUS then p + 2 else p + 1;
    if IsDigit(Peek(t, q)) {
      ExpTells(t, from, q + 1, t[q] - ZERO, c == MINUS);
    }
  }

  lemma NumberTells(t: bytes, from: nat, p: nat, log: seq<Event>, h: Handler)
    requires p <= |t| && Agreed(h, log) && Placed(t, from, p)
    ensures Telling(t, from, h, ParseNumber(t, p, log, h)) && TokenEnds(ParseNumber(t, p, log, h))
  {
    hide BigDigits, Fraction, Exponent, IntegerEnd, ValueOf, Agreed, Misspelt, Placed;
    var minus := Peek(t, p) == MINUS;
    var q := if minus then p + 1 else p;
    if IsDigit(Peek(t, q)) {
      hide Tells;
      var r := IntegerEnd(t, q);
      if t[q] != ZERO && BigDigits(t, q, 0).TooBig? {
        BigTells(t, from, q, 0);
      } else if Fraction(t, r).error.Bad? {
        FractionTells(t, from, r);
      } else if Exponent(t, Fraction(t, r).next).error.Bad? {
        ExponentTells(t, from, Fraction(t, r).next);
      } else {
        var x := ParseNumber(t, p, log, h);
        EmitTells(t, from, h, x.pos, log, x.log[|log|], x.pos);
      }
    }
  }

  lemma ScalarTells(t: bytes, from: nat, p: nat, log: seq<Event>, h: Handler)
    requires p <= |t| && Agreed(h, log) && Placed(t, from, p)
    ensures Telling(t, from, h, ParseScalar(t, p, log, h)) && TokenEnds(ParseScalar(t, p, log, h))
  {
    hide ParseString, ParseNumber, ParseWord, Telling, TokenEnds, Agreed;
    var c := Peek(t, p);
    if c == LOWER_N {
      assert Ascii("null")[1..] == ULL;
      ParseWordTells(t, from, p, log, h, Ascii("null"), Null);
    } else if c == LOWER_T {
      assert Ascii("true")[1..] == RUE;
      ParseWordTells(t, from, p, log, h, Ascii("true"), Bool(true));
    } else if c == LOWER_F {
      assert Ascii("false")[1..] == ALSE;
      ParseWordTells(t, from, p, log, h, Ascii("false"), Bool(false));
    } else if c == QUOTE {
      StringTells(t, from, p, log, h, false);
    } else {
      NumberTells(t, from, p, log, h);
    }
  }

  // ---------------------------------------------------------------- containers

  lemma {:induction false} SkipsBlanks(t: bytes, p: nat)
    requires p <= |t|
    ensures forall k | p <= k < SkipSpace(t, p) :: Blank(At(t, k))
    decreases |t| - p
  {
    if IsSpace(Peek(t, p)) {
      SkipsBlanks(t, p + 1);
    }
  }

  lemma PlacedAfter(t: bytes, from: nat, p: nat)
    requires from <= p <= |t| && Follows(t, from, p)
    ensures Placed(t, from, SkipSpace(t, p))
  {
    SkipsBlanks(t, p);
    hide SkipSpace, Follows, Blank;
  }

  /** Behind an opening bracket, a comma or a colon. */
  lemma SkipPlaced(t: bytes, from: nat, q: nat)
    requires from <= q <= |t|
    ensures Peek(t, q) == LBRACKET || Peek(t, q) == COMMA || Peek(t, q) == COLON ==> Placed(t, from, SkipSpace(t, q + 1))
  {
    hide Placed, SkipSpace;
    if Peek(t, q) == LBRACKET || Peek(t, q) == COMMA || Peek(t, q) == COLON {
      PlacedAfter(t, from, q + 1);
    }
  }

  lemma PlacedPast(t: bytes, from: nat, p: nat)
    requires Placed(t, from, p)
    ensures from <= p
  {
  }

  lemma {:induction false} ValueTells(t: bytes, from: nat, p: nat, log: seq<Event>, h: Handler)
    requires p <= |t| && Agreed(h, log) && Placed(t, from, p)
    ensures Telling(t, from, h, ParseValue(t, p, log, h))
    decreases |t| - p, 1
  {
    hide ParseScalar, ParseArray, ParseObject, Telling, Agreed, Placed;
    var c := Peek(t, p);
    PlacedPast(t, from, p);
    if c == LBRACE {
      ObjectTells(t, from, p, log, h);
    } else if c == LBRACKET {
      ArrayTells(t, from, p, log, h);
    } else {
      ScalarTells(t, from, p, log, h);
    }
  }

  lemma {:induction false} ArrayTells(t: bytes, from: nat, p: nat, log: seq<Event>, h: Handler)
    requires p < |t| && Agreed(h, log) && from <= p && t[p] == LBRACKET
    ensures Telling(t, from, h, ParseArray(t, p, log, h))
    decreases |t| - p, 0
  {
    hide Elements, Tells, SkipSpace, Placed;
    SkipPlaced(t, from, p);
    var s := Emit(h, p + 1, log, StartArray, p + 1);
    EmitTells(t, from, h, p + 1, log, StartArray, p + 1);
    if s.status.Good? {
      var q := SkipSpace(t, p + 1);
      if Peek(t, q) == RBRACKET {
        EmitTells(t, from, h, q + 1, s.log, EndArray(0), q + 1);
      } else {
        ElementsTell(t, from, q, s.log, h, 0);
      }
    }
  }

  lemma {:induction false} ElementsTell(t: bytes, from: nat, p: nat, log: seq<Event>, h: Handler, n: nat)
    requires p <= |t| && Agreed(h, log) && Placed(t, from, p)
    ensures Telling(t, from, h, JsonGrammar.Elements(t, p, log, h, n))
    decreases |t| - p, 2
  {
    hide ParseValue, AfterElement, Tells, Agreed, Placed;
    PlacedPast(t, from, p);
    ValueTells(t, from, p, log, h);
    var v := ParseValue(t, p, log, h);
    if v.status.Good? {
      AfterElementTells(t, from, v.pos, v.log, h, n);
    }
  }

  lemma {:induction false} AfterElementTells(t: bytes, from: nat, p: nat, log: seq<Event>, h: Handler, n: nat)
    requires from <= p <= |t| && Agreed(h, log)
    ensures Telling(t, from, h, AfterElement(t, p, log, h, n))
    decreases |t| - p, 0
  {
    hide JsonGrammar.Elements, SkipSpace, Agreed, Tells, Placed;
    var q := SkipSpace(t, p);
    SkipPlaced(t, from, q);
    var c := Peek(t, q);
    if c == COMMA {
      ElementsTell(t, from, SkipSpace(t, q + 1), log, h, n + 1);
    } else if c == RBRACKET {
      EmitTells(t, from, h, q + 1, log, EndArray(n + 1), q + 1);
    } else {
      NoCommaTells(t, from, q);
    }
  }

  lemma NoCommaTells(t: bytes, from: nat, q: nat)
    requires !IsSpace(Peek(t, q)) && Peek(t, q) != COMMA
    ensures Peek(t, q) != RBRACKET ==> Tells(t, from, ArrayMissCommaOrSquareBracket, q + 1)
    ensures Peek(t, q) != RBRACE ==> Tells(t, from, ObjectMissCommaOrCurlyBracket, q + 1)
  {
  }

  lemma {:induction false} ObjectTells(t: bytes, from: nat, p: nat, log: seq<Event>, h: Handler)
    requires p < |t| && Agreed(h, log) && from <= p
    ensures Telling(t, from, h, ParseObject(t, p, log, h))
    decreases |t| - p, 0
  {
    hide Members, Tells, SkipSpace;
    var s := Emit(h, p + 1, log, StartObject, p + 1);
    EmitTells(t, from, h, p + 1, log, StartObject, p + 1);
    if s.status.Good? {
      var q := SkipSpace(t, p + 1);
      if Peek(t, q) == RBRACE {
        EmitTells(t, from, h, q + 1, s.log, EndObject(0), q + 1);
      } else {
        MembersTell(t, from, q, s.log, h, 0);
      }
    }
  }

  lemma {:induction false} MembersTell(t: bytes, from: nat, p: nat, log: seq<Event>, h: Handler, n: nat)
    requires from <= p <= |t| && Agreed(h, log)
    ensures Telling(t, from, h, JsonGrammar.Members(t, p, log, h, n))
    decreases |t| - p, 2
  {
    hide ParseString, AfterKey, Agreed;
    if Peek(t, p) == QUOTE {
      hide Tells;
      StringTells(t, from, p, log, h, true);
      var k := ParseString(t, p, log, h, true);
      if k.status.Good? {
        AfterKeyTells(t, from, k.pos, k.log, h, n);
      }
    }
  }

  lemma {:induction false} AfterKeyTells(t: bytes, from: nat, p: nat, log: seq<Event>, h: Handler, n: nat)
    requires from <= p <= |t| && Agreed(h, log)
    ensures Telling(t, from, h, AfterKey(t, p, log, h, n))
    decreases |t| - p, 0
  {
    hide MemberValue, SkipSpace, Agreed, Placed;
    var q := SkipSpace(t, p);
    SkipPlaced(t, from, q);
    if Peek(t, q) == COLON {
      hide Tells;
      MemberValueTells(t, from, SkipSpace(t, q + 1), log, h, n);
    }
  }

  lemma {:induction false} MemberValueTells(t: bytes, from: nat, p: nat, log: seq<Event>, h: Handler, n: nat)
    requires p <= |t| && Agreed(h, log) && Placed(t, from, p)
    ensures Telling(t, from, h, MemberValue(t, p, log, h, n))
    decreases |t| - p, 2
  {
    hide ParseValue, AfterMember, Tells, Agreed, Placed;
    PlacedPast(t, from, p);
    ValueTells(t, from, p, log, h);
    var v := ParseValue(t, p, log, h);
    if v.status.Good? {
      AfterMemberTells(t, from, v.pos, v.log, h, n);
    }
  }

  lemma {:induction false} AfterMemberTells(t: bytes, from: nat, p: nat, log: seq<Event>, h: Handler, n: nat)
    requires from <= p <= |t| && Agreed(h, log)
    ensures Telling(t, from, h, AfterMember(t, p, log, h, n))
    decreases |t| - p, 0
  {
    hide JsonGrammar.Members, SkipSpace, Agreed, Tells;
    var q := SkipSpace(t, p);
    var c := Peek(t, q);
    if c == COMMA {
      MembersTell(t, from, SkipSpace(t, q + 1), log, h, n + 1);
    } else if c == RBRACE {
      EmitTells(t, from, h, q + 1, log, EndObject(n + 1), q + 1);
    } else {
      NoCommaTells(t, from, q);
    }
  }

  // ---------------------------------------------------------------- whole texts

  /** Every refused text, from any position: the code of its error names what is missing at its offset; and the parse is
      ended by its handler exactly when the handler refused the last event. */
  lemma ErrorTells(t: bytes, pos: nat, log: seq<Event>, h: Handler, stopWhenDone: bool)
    requires pos <= |t| && Agreed(h, log)
    ensures Telling(t, pos, h, ParseFrom(t, pos, log, h, stopWhenDone))
  {
    PlacedAfter(t, pos, pos);
    hide ParseValue, SkipSpace, Agreed, Placed;
    var p := SkipSpace(t, pos);
    if Peek(t, p) != NUL {
      ValueTells(t, pos, p, log, h);
    }
  }

  // ---------------------------------------------------------------- the table-driven reader

  /** A byte that starts no token of a value. */
  predicate NoToken(c: byte) {
    c == 0 || c == ']' as int || c == '}' as int || c == ',' as int || c == ':' as int
  }

  /** What an error of the table-driven reader tells; between tokens its offset is the byte itself. */
  predicate TellsHere(t: bytes, from: nat, code: ErrorCode, i: int) {
    match code
    case DocumentEmpty => NoToken(At(t, i))
    case DocumentRootNotSingular => At(t, i) != 0 && !Blank(At(t, i))
    case ObjectMissName => At(t, i) != '"' as int && !Blank(At(t, i))
    case ObjectMissColon => At(t, i) != ':' as int && !Blank(At(t, i))
    case ObjectMissCommaOrCurlyBracket => At(t, i) != ',' as int && At(t, i) != '}' as int && !Blank(At(t, i))
    case ArrayMissCommaOrSquareBracket => At(t, i) != ',' as int && At(t, i) != ']' as int && !Blank(At(t, i))
    case UnspecificSyntaxError => NoToken(At(t, i))
    case _ => Tells(t, from, code, i)
  }

  predicate TellingHere(t: bytes, from: nat, h: Handler, r: Progress) {
    if r.status.Good? then Agreed(h, r.log)
    else TellsHere(t, from, r.status.code, r.status.offset) && (r.status.code == Termination <==> !Agreed(h, r.log))
  }

  lemma TokenTells(t: bytes, from: nat, h: Handler, r: Progress)
    requires Telling(t, from, h, r) && TokenEnds(r)
    ensures TellingHere(t, from, h, r)
  {
    hide Tells, Agreed;
  }

  /** No step is possible. */
  lemma StuckTells(t: bytes, from: nat, h: Handler, m: M.Machine)
    requires M.Ready(t, m) && Agreed(h, m.at.log) && !IsSpace(Peek(t, m.at.pos))
    requires if Peek(t, m.at.pos) == NUL then !m.state.Finish?
             else M.Predict(m.state, M.Tokenize(Peek(t, m.at.pos))).Error?
    ensures TellingHere(t, from, h, M.HandleError(m.state, m.at))
  {
    hide Agreed, Tells;
  }

  /** A value has to follow. */
  predicate Awaits(s: M.State) {
    s.Start? || s.ArrayInitial? || s.ElementDelimiter? || s.KeyValueDelimiter?
  }

  predicate Ready(t: bytes, from: nat, h: Handler, m: M.Machine) {
    && M.Ready(t, m) && Agreed(h, m.at.log) && from <= m.at.pos
    && (Awaits(m.state) ==> Placed(t, from, m.at.pos))
  }

  lemma StepTells(t: bytes, from: nat, h: Handler, m: M.Machine)
    requires Ready(t, from, h, m) && Peek(t, m.at.pos) != NUL && !IsSpace(Peek(t, m.at.pos))
    ensures var m' := M.Next(t, h, m);
            if m'.state.Error? then TellingHere(t, from, h, M.HandleError(m.state, m'.at)) else Agreed(h, m'.at.log)
  {
    hide Agreed, TellingHere, ParseString, ParseScalar, ParseArray, ParseObject, Telling, TokenEnds, Placed;
    var at, c := m.at, Peek(t, m.at.pos);
    var dst := M.Predict(m.state, M.Tokenize(c));
    if dst.Error? {
      StuckTells(t, from, h, m);
    } else if dst.MemberKey? {
      StringTells(t, from, at.pos, at.log, h, true);
      TokenTells(t, from, h, ParseString(t, at.pos, at.log, h, true));
      if ParseString(t, at.pos, at.log, h, true).status.Good? {
        KeepsAgreed(t, from, h, ParseString(t, at.pos, at.log, h, true));
      }
    } else if dst.MemberValue? || dst.Element? || dst.SingleValue? {
      ScalarTells(t, from, at.pos, at.log, h);
      TokenTells(t, from, h, ParseScalar(t, at.pos, at.log, h));
      if ParseScalar(t, at.pos, at.log, h).status.Good? {
        KeepsAgreed(t, from, h, ParseScalar(t, at.pos, at.log, h));
      }
    } else if dst.ObjectInitial? || dst.ArrayInitial? {
      OneEvent(t, from, h, at, if dst.ObjectInitial? then StartObject else StartArray);
    } else if dst.ObjectFinish? || dst.ArrayFinish? {
      var n := M.Top(m.frames).count + if m.state.MemberValue? || m.state.Element? then 1 else 0;
      OneEvent(t, from, h, at, if dst.ObjectFinish? then EndObject(n) else EndArray(n));
    }
  }

  lemma KeepsAgreed(t: bytes, from: nat, h: Handler, r: Progress)
    requires Telling(t, from, h, r) && r.status.Good?
    ensures Agreed(h, r.log)
  {
  }

  lemma OneEvent(t: bytes, from: nat, h: Handler, at: Progress, e: Event)
    ensures var r := Emit(h, at.pos, at.log, e, at.pos);
            if r.status.Good? then Agreed(h, r.log) else TellingHere(t, from, h, r)
  {
  }

  /** The step into a state that awaits a value takes an opening bracket, a comma or a colon. */
  lemma StepPlaces(t: bytes, h: Handler, m: M.Machine)
    requires M.Ready(t, m) && Peek(t, m.at.pos) != NUL
    ensures var m' := M.Next(t, h, m);
            Awaits(m'.state) ==>
              m'.at.pos == m.at.pos + 1 && var c := Peek(t, m.at.pos); c == LBRACKET || c == COMMA || c == COLON
  {
    hide ParseString, ParseScalar, ParseArray, ParseObject;
  }

  lemma {:induction false} RunTells(t: bytes, from: nat, h: Handler, stopWhenDone: bool, m: M.Machine)
    requires Ready(t, from, h, m) && !IsSpace(Peek(t, m.at.pos))
    ensures TellingHere(t, from, h, M.Run(t, h, stopWhenDone, m))
    decreases |t| - m.at.pos
  {
    hide M.Transit, M.Predict, M.HandleError, Agreed, TellsHere, SkipSpace, IsSpace, Placed;
    if Peek(t, m.at.pos) == NUL {
      if !m.state.Finish? {
        StuckTells(t, from, h, m);
      }
    } else {
      StepTells(t, from, h, m);
      StepPlaces(t, h, m);
      SkipPlaced(t, from, m.at.pos);
      var m' := M.Next(t, h, m);
      if !m'.state.Error? && !(stopWhenDone && m'.state.Finish?) {
        RunTells(t, from, h, stopWhenDone, m'.(at := M.SkipAt(t, m'.at)));
      }
    }
  }

  /** The same for the table-driven reader. */
  lemma IterativeErrorTells(t: bytes, pos: nat, log: seq<Event>, h: Handler, stopWhenDone: bool)
    requires pos <= |t| && Agreed(h, log)
    ensures TellingHere(t, pos, h, M.IterativeParse(t, pos, log, h, stopWhenDone))
  {
    PlacedAfter(t, pos, pos);
    hide SkipSpace, TellingHere, Agreed, M.Run, Placed;
    RunTells(t, pos, h, stopWhenDone, M.Machine(M.Start, [], Progress(SkipSpace(t, pos), log, Good)));
  }

  // ---------------------------------------------------------------- nothing there

  /** Of a text that is blank from there on both readers say that it is empty, at its end. */
  lemma BlankRefused(t: bytes, pos: nat, log: seq<Event>, h: Handler, stopWhenDone: bool)
    requires pos <= |t| && forall k | pos <= k < |t| :: Blank(t[k])
    ensures ParseFrom(t, pos, log, h, stopWhenDone) == Progress(|t|, log, Bad(DocumentEmpty, |t|))
    ensures M.IterativeParse(t, pos, log, h, stopWhenDone) == Progress(|t|, log, Bad(DocumentEmpty, |t|))
  {
    BlanksSkipped(t, pos);
  }

  lemma {:induction false} BlanksSkipped(t: bytes, p: nat)
    requires p <= |t| && forall k | p <= k < |t| :: Blank(t[k])
    ensures SkipSpace(t, p) == |t|
    decreases |t| - p
  {
    if p < |t| {
      BlanksSkipped(t, p + 1);
    }
  }
}
