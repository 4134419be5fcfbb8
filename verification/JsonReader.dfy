/** GenericReader: the recursive and the table-driven parser over one cursor, one stack and one
    parse result, both updated in place. */
module JsonReader {
  import opened Bytes
  import opened JsonEvents
  import opened JsonGrammar
  import M = JsonMachine

  newtype uint32 = x: int | 0 <= x < 0x1_0000_0000
  newtype uint64 = x: int | 0 <= x < 0x1_0000_0000_0000_0000

  /** The stack is untyped: decoded characters, return states and counts share it. */
  datatype Cell = CharCell(c: byte) | StateCell(s: M.State) | CountCell(n: nat)

  function Chars(s: bytes): (cells: seq<Cell>)
    ensures |cells| == |s|
  {
    seq(|s|, i requires 0 <= i < |s| => CharCell(s[i]))
  }

  function Unchars(cells: seq<Cell>): (s: bytes)
    requires forall i | 0 <= i < |cells| :: cells[i].CharCell?
    ensures |s| == |cells|
  {
    seq(|cells|, i requires 0 <= i < |cells| => cells[i].c)
  }

  lemma CharsEmpty()
    ensures Chars([]) == []
  {
  }

  lemma CharsMore(cells: seq<Cell>, s: bytes, out: bytes)
    ensures cells + Chars(s) + Chars(out) == cells + Chars(s + out)
  {
  }

  /** Two cells a frame, the count on top. */
  function Encoded(frames: seq<M.Frame>): (cells: seq<Cell>)
    ensures |cells| == 2 * |frames|
  {
    if frames == [] then []
    else Encoded(M.Below(frames)) + [StateCell(M.Top(frames).ret), CountCell(M.Top(frames).count)]
  }

  /** The cast of an unsigned int to int, and negation of an int, both wrapping. */
  function ToInt(i: uint32): int {
    if i < 0x8000_0000 then i as int else i as int - 0x1_0000_0000
  }

  function NegInt(i: int): int
    requires -0x8000_0000 <= i < 0x8000_0000
  {
    if i == -0x8000_0000 then i else -i
  }

  function ToInt64(i: uint64): int {
    if i < 0x8000_0000_0000_0000 then i as int else i as int - 0x1_0000_0000_0000_0000
  }

  function NegInt64(i: int): int
    requires -0x8000_0000_0000_0000 <= i < 0x8000_0000_0000_0000
  {
    if i == -0x8000_0000_0000_0000 then i else -i
  }

  /** The accumulators hold v in the narrowest of 32 bits, 64 bits or a double. */
  predicate Holds(minus: bool, v: nat, i: uint32, i64: uint64, use64bit: bool, useDouble: bool) {
    if useDouble then use64bit && v > if minus then TWO63 else TWO64 - 1
    else if use64bit then
      v == i64 as int && if minus then TWO31 < v <= TWO63 else TWO32 <= v < TWO64
    else v == i as int && if minus then v <= TWO31 else v < TWO32
  }

  class Reader {
    const text: bytes
    const handler: Handler
    var pos: nat
    var log: seq<Event>
    var status: Status
    var stack: seq<Cell>
    ghost var frames: seq<M.Frame>

    constructor (text: bytes, handler: Handler)
      ensures this.text == text && this.handler == handler
      ensures pos == 0 && log == [] && status == Good && stack == []
    {
      this.text, this.handler := text, handler;
      pos, log, status, stack := 0, [], Good, [];
    }

    ghost function Now(): Progress
      reads this
    {
      Progress(pos, log, status)
    }

    function Cur(): byte
      reads this
    {
      Peek(text, pos)
    }

    method Take() returns (c: byte)
      modifies `pos
      ensures c == Peek(text, old(pos)) && pos == old(pos) + 1
    {
      c := Cur();
      pos := pos + 1;
    }

    method SkipWhitespace()
      modifies `pos
      ensures pos == SkipSpace(text, old(pos))
    {
      while IsSpace(Cur())
        invariant SkipSpace(text, pos) == SkipSpace(text, old(pos))
        decreases |text| - pos
      {
        pos := pos + 1;
      }
    }

    /** A handler call; at is the offset reported when the handler stops the parse. */
    method Report(e: Event, at: nat)
      requires status.Good?
      modifies `log, `status
      ensures Now() == Emit(handler, pos, old(log), e, at)
    {
      log := log + [e];
      if !handler(log) {
        status := Bad(Termination, at);
      }
    }

    // -------------------------------------------------------------- literals

    method ParseNull()
      requires status.Good? && pos < |text|
      modifies `pos, `log, `status
      ensures Now() == ParseWord(text, old(pos), old(log), handler, ULL, Null)
    {
      var ok := TakeWord(ULL);
      if ok { Report(Null, pos); } else { status := Bad(ValueInvalid, pos - 1); }
    }

    method ParseTrue()
      requires status.Good? && pos < |text|
      modifies `pos, `log, `status
      ensures Now() == ParseWord(text, old(pos), old(log), handler, RUE, Bool(true))
    {
      var ok := TakeWord(RUE);
      if ok { Report(Bool(true), pos); } else { status := Bad(ValueInvalid, pos - 1); }
    }

    method ParseFalse()
      requires status.Good? && pos < |text|
      modifies `pos, `log, `status
      ensures Now() == ParseWord(text, old(pos), old(log), handler, ALSE, Bool(false))
    {
      var ok := TakeWord(ALSE);
      if ok { Report(Bool(false), pos); } else { status := Bad(ValueInvalid, pos - 1); }
    }

    /** Take the first letter, then the others as long as they match. */
    method TakeWord(word: bytes) returns (ok: bool)
      requires forall i | 0 <= i < |word| :: word[i] != NUL
      requires pos < |text|
      modifies `pos
      ensures Match(ok, pos) == Word(text, old(pos) + 1, word)
    {
      pos := pos + 1;
      var i := 0;
      while i < |word|
        invariant 0 <= i <= |word| && pos <= |text|
        invariant Word(text, pos, word[i..]) == Word(text, old(pos) + 1, word)
      {
        var c := Take();
        if c != word[i] {
          return false;
        }
        i := i + 1;
      }
      return true;
    }

    // -------------------------------------------------------------- strings

    method Put(c: byte)
      modifies `stack
      ensures stack == old(stack) + Chars([c])
    {
      stack := stack + [CharCell(c)];
    }

    /** UTF8::Encode into the stack. */
    method Encode(codepoint: nat)
      requires codepoint <= 0x10FFFF
      modifies `stack
      ensures stack == old(stack) + Chars(Utf8.Encode(codepoint))
    {
      var s := Utf8.Encode(codepoint);
      var i := 0;
      while i < |s|
        invariant 0 <= i <= |s|
        invariant stack == old(stack) + Chars(s[..i])
      {
        Put(s[i]);
        i := i + 1;
      }
      assert s[..|s|] == s;
    }

    method ParseHex4() returns (codepoint: nat)
      requires status.Good? && pos <= |text|
      modifies `pos, `status
      ensures match Hex4(text, old(pos), 0, 0)
              case HexOk(cp) => status.Good? && codepoint == cp && pos == old(pos) + 4
              case HexBad(at) => status == Bad(StringUnicodeEscapeInvalidHex, at) && pos == at + 1
    {
      hide Hex4, Hex4Range;
      Hex4Ends(text, pos);
      codepoint := 0;
      var i := 0;
      while i < 4
        invariant 0 <= i <= 4 && pos == old(pos) + i <= |text| && status.Good?
        invariant codepoint < Hex4Range(i)
        invariant Hex4(text, pos, i, codepoint) == Hex4(text, old(pos), 0, 0)
      {
        Hex4Step(text, pos, i, codepoint);
        var c := Take();
        if HexDigit(c) < 0 {
          status := Bad(StringUnicodeEscapeInvalidHex, pos - 1);
          return 0;
        }
        codepoint := codepoint * 16 + HexDigit(c);
        i := i + 1;
      }
      Hex4Ends(text, pos);
    }

    /** What a step of the string scanner leaves: bytes on the stack, or an error. */
    twostate predicate Scanned(u: Unit)
      reads this
    {
      match u
      case Close(q) => status.Good? && pos == q && stack == old(stack) + Chars([NUL])
      case Piece(q, out) => status.Good? && pos == q && stack == old(stack) + Chars(out)
      case Broken(q, code, offset) => status == Bad(code, offset) && pos == q && stack == old(stack)
    }

    /** The escape at the cursor. */
    method ParseEscape()
      requires status.Good? && pos < |text| && text[pos] == BACKSLASH
      modifies `pos, `status, `stack
      ensures Scanned(JsonGrammar.Escape(text, old(pos)))
    {
      pos := pos + 1;
      var e := Take();
      if ShortEscape(e) != 0 {
        Put(ShortEscape(e));
      } else if e == LOWER_U {
        var codepoint := ParseHex4();
        if status.Bad? {
          return;
        }
        if 0xD800 <= codepoint <= 0xDBFF {
          codepoint := ParseTrail(codepoint);
          if status.Bad? {
            return;
          }
        }
        Encode(codepoint);
      } else {
        status := Bad(StringEscapeInvalid, pos - 1);
      }
    }

    /** The \uXXXX that must follow a lead surrogate: the code point of the pair. */
    method ParseTrail(lead: nat) returns (codepoint: nat)
      requires status.Good? && pos <= |text| && 0xD800 <= lead <= 0xDBFF
      modifies `pos, `status
      ensures status.Good? ==> codepoint <= 0x10FFFF
      ensures match TrailEscape(text, old(pos), lead)
              case Close(_) => false
              case Piece(q, out) => status.Good? && pos == q && out == Utf8.Encode(codepoint)
              case Broken(q, code, offset) => status == Bad(code, offset) && pos == q
    {
      codepoint := 0;
      var c := Take();
      var escaped := c == BACKSLASH;
      if escaped {
        c := Take();
        escaped := c == LOWER_U;
      }
      if !escaped {
        status := Bad(StringUnicodeSurrogateInvalid, pos - 2);
        return;
      }
      var codepoint2 := ParseHex4();
      if status.Bad? {
        return;
      }
      if codepoint2 < 0xDC00 || codepoint2 > 0xDFFF {
        status := Bad(StringUnicodeSurrogateInvalid, pos - 2);
        return;
      }
      codepoint := SurrogatePair(lead, codepoint2);
    }

    /** One turn of the string loop; done at the closing quote, which puts the terminator. */
    method ParseUnit() returns (done: bool)
      requires status.Good? && pos <= |text|
      modifies `pos, `status, `stack
      ensures Scanned(NextUnit(text, old(pos)))
      ensures done == NextUnit(text, old(pos)).Close?
    {
      done := false;
      var c := Cur();
      if c == BACKSLASH {
        ParseEscape();
      } else if c == QUOTE {
        pos := pos + 1;
        Put(NUL);
        done := true;
      } else if c == NUL {
        status := Bad(StringMissQuotationMark, pos - 1);
      } else if c < 0x20 {
        status := Bad(StringEscapeInvalid, pos - 1);
      } else {
        pos := pos + 1;
        Put(c);
      }
    }

    /** The string at the cursor, decoded onto the stack with a terminator; length counts what was put. */
    method ParseStringToStream() returns (length: nat)
      requires status.Good? && pos < |text|
      modifies `pos, `status, `stack
      ensures old(stack) <= stack
      ensures match Body(text, old(pos) + 1)
              case Closed(q, s) => status.Good? && pos == q && length == |s| + 1
                && stack == old(stack) + Chars(s + [NUL])
              case Refused(q, code, offset) => status == Bad(code, offset) && pos == q
    {
      hide Body, NextUnit, Chars;
      pos := pos + 1;
      var base := |stack|;
      var done := false;
      ghost var s: bytes := [];
      CharsEmpty();
      while !done && status.Good?
        invariant base == |old(stack)| && base <= |stack| && stack[..base] == old(stack)
        invariant status.Good? && !done ==> old(pos) < pos <= |text| && stack == old(stack) + Chars(s)
        invariant status.Good? && !done ==> Body(text, old(pos) + 1) == Prepend(s, Body(text, pos))
        invariant status.Good? && done ==> stack == old(stack) + Chars(s + [NUL])
        invariant status.Good? && done ==> Body(text, old(pos) + 1) == Closed(pos, s)
        invariant status.Bad? ==> Body(text, old(pos) + 1) == Refused(pos, status.code, status.offset)
        decreases |text| - pos, !done && status.Good?
      {
        ghost var u := NextUnit(text, pos);
        BodyStep(text, pos, s);
        done := ParseUnit();
        CharsMore(old(stack), s, if u.Piece? then u.out else [NUL]);
        if u.Piece? {
          s := s + u.out;
        }
      }
      length := |stack| - base;
    }

    method ParseString(isKey: bool)
      requires status.Good? && pos < |text|
      modifies `pos, `log, `status, `stack
      ensures Now() == JsonGrammar.ParseString(text, old(pos), old(log), handler, isKey)
      ensures old(stack) <= stack
      ensures status.Good? ==> stack == old(stack)
    {
      var length := ParseStringToStream();
      if status.Bad? {
        return;
      }
      ghost var b := Body(text, old(pos) + 1);
      var popped := stack[|stack| - length..];
      stack := stack[..|stack| - length];
      assert popped == Chars(b.s + [NUL]);
      var str := Unchars(popped[..length - 1]);
      assert str == b.s;
      Report(if isKey then Key(str) else String(str), pos);
    }

    // -------------------------------------------------------------- numbers

    /** The loop over unsigned i: stop before the digit that would leave the 32-bit range. */
    method Digits32(minus: bool) returns (i: uint32, use64bit: bool)
      requires pos < |text| && IsDigit(text[pos])
      modifies `pos
      ensures Accumulated(text, old(pos), pos, i as int)
      ensures minus ==> i <= 0x8000_0000
      ensures !use64bit ==> !IsDigit(Cur())
      ensures use64bit ==>
        IsDigit(Cur()) && i as int * 10 + (text[pos] - ZERO) > if minus then TWO31 else TWO32 - 1
    {
      hide Accumulated;
      AccumulateFirst(text, pos);
      i, use64bit := (Cur() - ZERO) as uint32, false;
      pos := pos + 1;
      var limit: uint32, last := if minus then 214748364 else 429496729, if minus then ZERO + 8 else ZERO + 5;
      while IsDigit(Cur())
        invariant Accumulated(text, old(pos), pos, i as int)
        invariant minus ==> i <= 0x8000_0000
        decreases |text| - pos
      {
        if i >= limit {
          if i != limit || Cur() > last {
            use64bit := true;
            break;
          }
        }
        AccumulateMore(text, old(pos), pos, i as int);
        i := i * 10 + (Cur() - ZERO) as uint32;
        pos := pos + 1;
      }
    }

    /** The loop over uint64_t i64: stop before the digit that would leave the 64-bit range. */
    method Digits64(minus: bool, ghost q: nat, i: uint64) returns (i64: uint64, useDouble: bool)
      requires Accumulated(text, q, pos, i as int) && i < 0x1_0000_0000 && IsDigit(Cur())
      modifies `pos
      ensures old(pos) < pos && Accumulated(text, q, pos, i64 as int)
      ensures minus ==> i64 <= 0x8000_0000_0000_0000
      ensures !useDouble ==> !IsDigit(Cur())
      ensures useDouble ==>
        IsDigit(Cur()) && i64 as int * 10 + (text[pos] - ZERO) > if minus then TWO63 else TWO64 - 1
    {
      hide Accumulated;
      i64, useDouble := i, false;
      var limit: uint64, last := if minus then 0x0CCC_CCCC_CCCC_CCCC else 0x1999_9999_9999_9999,
                                 if minus then ZERO + 8 else ZERO + 5;
      while IsDigit(Cur())
        invariant old(pos) <= pos && (old(pos) == pos ==> i64 == i && !useDouble)
        invariant Accumulated(text, q, pos, i64 as int)
        invariant minus ==> i64 <= 0x8000_0000_0000_0000
        decreases |text| - pos
      {
        if i64 >= limit {
          if i64 != limit || Cur() > last {
            useDouble := true;
            break;
          }
        }
        AccumulateMore(text, q, pos, i64 as int);
        i64 := i64 * 10 + (Cur() - ZERO) as uint64;
        pos := pos + 1;
      }
    }

    /** The loop over a double, here an exact number: stop when it has no room for another digit. */
    method DigitsDouble(from: nat)
      requires status.Good? && pos <= |text|
      modifies `pos, `status
      ensures match BigDigits(text, old(pos), from)
              case Done(r) => status.Good? && pos == r
              case TooBig(at) => status == Bad(NumberTooBig, at) && pos == at
    {
      var d: nat := from;
      while IsDigit(Cur())
        invariant status.Good? && pos <= |text|
        invariant BigDigits(text, pos, d) == BigDigits(text, old(pos), from)
        decreases |text| - pos
      {
        if d >= DOUBLE_LIMIT {
          status := Bad(NumberTooBig, pos);
          return;
        }
        d := d * 10 + (Cur() - ZERO);
        pos := pos + 1;
      }
    }

    method SkipDigits()
      requires pos <= |text|
      modifies `pos
      ensures pos == DigitsEnd(text, old(pos))
    {
      while IsDigit(Cur())
        invariant pos <= |text| && DigitsEnd(text, pos) == DigitsEnd(text, old(pos))
        decreases |text| - pos
      {
        pos := pos + 1;
      }
    }

    method ParseFraction() returns (present: bool)
      requires status.Good? && pos <= |text|
      modifies `pos, `status
      ensures Part(pos, present, status) == Fraction(text, old(pos))
    {
      present := Cur() == DOT;
      if present {
        pos := pos + 1;
        if !IsDigit(Cur()) {
          status := Bad(NumberMissFraction, pos);
          return;
        }
        SkipDigits();
      }
    }

    method ParseExponent() returns (present: bool)
      requires status.Good? && pos <= |text|
      modifies `pos, `status
      ensures Part(pos, present, status) == Exponent(text, old(pos))
    {
      present := IsE(Cur());
      if !present {
        return;
      }
      pos := pos + 1;
      var expMinus := false;
      if Cur() == PLUS {
        pos := pos + 1;
      } else if Cur() == MINUS {
        pos := pos + 1;
        expMinus := true;
      }
      if !IsDigit(Cur()) {
        status := Bad(NumberMissExponent, pos);
        return;
      }
      pos := pos + 1;
      DigitsExp(text[pos - 1] - ZERO, expMinus);
    }

    method DigitsExp(from: nat, expMinus: bool)
      requires status.Good? && pos <= |text|
      modifies `pos, `status
      ensures match ExpDigits(text, old(pos), from, expMinus)
              case Done(r) => status.Good? && pos == r
              case TooBig(at) => status == Bad(NumberTooBig, at) && pos == at
    {
      var exp: nat := from;
      while IsDigit(Cur())
        invariant status.Good? && pos <= |text|
        invariant ExpDigits(text, pos, exp, expMinus) == ExpDigits(text, old(pos), from, expMinus)
        decreases |text| - pos
      {
        exp := exp * 10 + (Cur() - ZERO);
        pos := pos + 1;
        if exp > 308 && !expMinus {
          status := Bad(NumberTooBig, pos);
          return;
        }
      }
    }

    /** The integer part: the accumulators and which of them holds it. */
    method ParseInteger(minus: bool) returns (i: uint32, i64: uint64, use64bit: bool, useDouble: bool)
      requires status.Good? && pos <= |text|
      modifies `pos, `status
      ensures !IsDigit(Peek(text, old(pos))) ==> status == Bad(ValueInvalid, pos) && pos == old(pos)
      ensures IsDigit(Peek(text, old(pos))) ==>
        var big := BigDigits(text, old(pos), 0);
        if text[old(pos)] != ZERO && big.TooBig? then
          status == Bad(NumberTooBig, pos) && pos == big.at
        else
          && status.Good?
          && pos == IntegerEnd(text, old(pos))
          && Holds(minus, RunValue(text, old(pos), pos), i, i64, use64bit, useDouble)
    {
      i, i64, use64bit, useDouble := 0, 0, false, false;
      ghost var q := pos;
      if Cur() == ZERO {
        RunOne(text, q);
        pos := pos + 1;
      } else if IsDigit(Cur()) {
        i, use64bit := Digits32(minus);
        if use64bit {
          ghost var p := pos;
          i64, useDouble := Digits64(minus, q, i as uint64);
          RunGrows(text, q, p, pos);
        }
        RunEnds(text, q, pos);
        if useDouble {
          ghost var p := pos;
          DigitsDouble(i64 as nat);
          if status.Good? {
            RunGrows(text, q, p, pos);
          }
        }
      } else {
        status := Bad(ValueInvalid, pos);
      }
    }

    method ParseNumber()
      requires status.Good? && pos <= |text|
      modifies `pos, `log, `status
      ensures Now() == JsonGrammar.ParseNumber(text, old(pos), old(log), handler)
    {
      ghost var p := pos;
      var start := pos;
      var minus := Cur() == MINUS;
      if minus {
        pos := pos + 1;
      }
      ghost var q := pos;
      var i, i64, use64bit, useDouble := ParseInteger(minus);
      if status.Bad? {
        return;
      }
      var fraction := ParseFraction();
      if status.Bad? {
        return;
      }
      var exponent := ParseExponent();
      if status.Bad? {
        return;
      }
      var e: Event;
      if useDouble || fraction || exponent {
        e := Double(text[start..pos]);
      } else if use64bit {
        e := if minus then Int64(NegInt64(ToInt64(i64))) else Uint64(i64 as int);
      } else {
        e := if minus then Int(NegInt(ToInt(i))) else Uint(i as int);
      }
      Report(e, pos);
    }

    // -------------------------------------------------------------- recursive parsing

    method ParseValue()
      requires status.Good? && pos <= |text|
      modifies `pos, `log, `status, `stack
      ensures Now() == JsonGrammar.ParseValue(text, old(pos), old(log), handler)
      ensures old(stack) <= stack && (status.Good? ==> stack == old(stack))
      decreases |text| - pos, 1
    {
      var c := Cur();
      if c == LBRACE {
        ParseObject();
      } else if c == LBRACKET {
        ParseArray();
      } else {
        ParseScalar();
      }
    }

    method ParseScalar()
      requires status.Good? && pos <= |text|
      modifies `pos, `log, `status, `stack
      ensures Now() == JsonGrammar.ParseScalar(text, old(pos), old(log), handler)
      ensures old(stack) <= stack && (status.Good? ==> stack == old(stack))
    {
      var c := Cur();
      if c == LOWER_N {
        ParseNull();
      } else if c == LOWER_T {
        ParseTrue();
      } else if c == LOWER_F {
        ParseFalse();
      } else if c == QUOTE {
        ParseString(false);
      } else {
        ParseNumber();
      }
    }

    method ParseArray()
      requires status.Good? && pos < |text| && text[pos] == LBRACKET
      modifies `pos, `log, `status, `stack
      ensures Now() == JsonGrammar.ParseArray(text, old(pos), old(log), handler)
      ensures old(stack) <= stack && (status.Good? ==> stack == old(stack))
      decreases |text| - pos, 0
    {
      pos := pos + 1;
      Report(StartArray, pos);
      if status.Bad? {
        return;
      }
      SkipWhitespace();
      if Cur() == RBRACKET {
        pos := pos + 1;
        Report(EndArray(0), pos);
        return;
      }
      ParseElements();
    }

    method ParseElements()
      requires status.Good? && pos <= |text|
      modifies `pos, `log, `status, `stack
      ensures Now() == Elements(text, old(pos), old(log), handler, 0)
      ensures old(stack) <= stack && (status.Good? ==> stack == old(stack))
      decreases |text| - pos, 3
    {
      hide JsonGrammar.ParseValue, AfterKey, AfterMember;
      var elementCount := 0;
      while true
        invariant status.Good? && old(pos) <= pos <= |text| && stack == old(stack)
        invariant Elements(text, old(pos), old(log), handler, 0) == Elements(text, pos, log, handler, elementCount)
        decreases |text| - pos
      {
        ParseValue();
        if status.Bad? {
          return;
        }
        elementCount := elementCount + 1;
        SkipWhitespace();
        var c := Take();
        if c == COMMA {
          SkipWhitespace();
        } else if c == RBRACKET {
          Report(EndArray(elementCount), pos);
          return;
        } else {
          status := Bad(ArrayMissCommaOrSquareBracket, pos);
          return;
        }
      }
    }

    /** Name, colon and value of the member at the cursor, n members being complete. */
    method ParseMember(ghost n: nat)
      requires status.Good? && pos <= |text|
      modifies `pos, `log, `status, `stack
      ensures old(stack) <= stack && (status.Good? ==> stack == old(stack) && old(pos) < pos <= |text|)
      ensures Members(text, old(pos), old(log), handler, n)
           == if status.Good? then AfterMember(text, pos, log, handler, n) else Now()
      decreases |text| - pos, 2
    {
      if Cur() != QUOTE {
        status := Bad(ObjectMissName, pos);
        return;
      }
      ParseString(true);
      if status.Bad? {
        return;
      }
      assert Members(text, old(pos), old(log), handler, n) == AfterKey(text, pos, log, handler, n);
      SkipWhitespace();
      var c := Take();
      if c != COLON {
        status := Bad(ObjectMissColon, pos);
        return;
      }
      SkipWhitespace();
      assert Members(text, old(pos), old(log), handler, n) == JsonGrammar.MemberValue(text, pos, log, handler, n);
      ParseValue();
    }

    method ParseObject()
      requires status.Good? && pos < |text| && text[pos] == LBRACE
      modifies `pos, `log, `status, `stack
      ensures Now() == JsonGrammar.ParseObject(text, old(pos), old(log), handler)
      ensures old(stack) <= stack && (status.Good? ==> stack == old(stack))
      decreases |text| - pos, 0
    {
      pos := pos + 1;
      Report(StartObject, pos);
      if status.Bad? {
        return;
      }
      SkipWhitespace();
      if Cur() == RBRACE {
        pos := pos + 1;
        Report(EndObject(0), pos);
        return;
      }
      ParseMembers();
    }

    method ParseMembers()
      requires status.Good? && pos <= |text|
      modifies `pos, `log, `status, `stack
      ensures Now() == Members(text, old(pos), old(log), handler, 0)
      ensures old(stack) <= stack && (status.Good? ==> stack == old(stack))
      decreases |text| - pos, 3
    {
      hide JsonGrammar.ParseValue, JsonGrammar.ParseString, AfterKey, AfterElement;
      var memberCount := 0;
      while true
        invariant status.Good? && old(pos) <= pos <= |text| && stack == old(stack)
        invariant Members(text, old(pos), old(log), handler, 0) == Members(text, pos, log, handler, memberCount)
        decreases |text| - pos
      {
        ParseMember(memberCount);
        if status.Bad? {
          return;
        }
        SkipWhitespace();
        memberCount := memberCount + 1;
        var c := Take();
        if c == COMMA {
          SkipWhitespace();
        } else if c == RBRACE {
          Report(EndObject(memberCount), pos);
          return;
        } else {
          status := Bad(ObjectMissCommaOrCurlyBracket, pos);
          return;
        }
      }
    }

    /** Parse without kParseIterativeFlag, from wherever the stream stands. */
    method Parse(stopWhenDone: bool)
      requires pos <= |text| && stack == []
      modifies this
      ensures Now() == ParseFrom(text, old(pos), old(log), handler, stopWhenDone)
      ensures stack == []
    {
      status := Good;
      SkipWhitespace();
      if Cur() == NUL {
        status := Bad(DocumentEmpty, pos);
      } else {
        ParseValue();
        if status.Good? && !stopWhenDone {
          SkipWhitespace();
          if Cur() != NUL {
            status := Bad(DocumentRootNotSingular, pos);
          }
        }
      }
      stack := [];
    }

    // -------------------------------------------------------------- iterative parsing

    ghost function Configuration(s: M.State): M.Machine
      reads this
    {
      M.Machine(s, frames, Now())
    }

    ghost predicate Mirrored()
      reads this
    {
      stack == Encoded(frames)
    }

    /** Push a return state and a zero count. */
    method PushFrame(n: M.State)
      requires Mirrored()
      modifies `stack, `frames
      ensures Mirrored() && frames == old(frames) + [M.Frame(n, 0)]
    {
      stack := stack + [StateCell(n)];
      stack := stack + [CountCell(0)];
      ghost var fs := frames + [M.Frame(n, 0)];
      assert M.Below(fs) == frames && M.Top(fs) == M.Frame(n, 0);
      frames := fs;
    }

    /** Pop a count and the return state under it. */
    method PopFrame() returns (c: nat, n: M.State)
      requires Mirrored() && frames != []
      modifies `stack, `frames
      ensures Mirrored() && frames == M.Below(old(frames)) && M.Frame(n, c) == M.Top(old(frames))
    {
      c := stack[|stack| - 1].n;
      stack := stack[..|stack| - 1];
      n := stack[|stack| - 1].s;
      stack := stack[..|stack| - 1];
      frames := M.Below(frames);
    }

    /** One more value in the container on top. */
    method CountOne()
      requires Mirrored() && frames != []
      modifies `stack, `frames
      ensures Mirrored()
      ensures frames == M.Below(old(frames)) + [M.Top(old(frames)).(count := M.Top(old(frames)).count + 1)]
    {
      stack := stack[|stack| - 1 := CountCell(stack[|stack| - 1].n + 1)];
      ghost var top := M.Top(frames).(count := M.Top(frames).count + 1);
      ghost var fs := M.Below(frames) + [top];
      assert M.Below(fs) == M.Below(frames) && M.Top(fs) == top;
      frames := fs;
    }

    method Transit(src: M.State, token: M.Token, dst: M.State) returns (d: M.State)
      requires Mirrored() && M.Ready(text, Configuration(src)) && Cur() != NUL
      requires token == M.Tokenize(Cur()) && dst == M.Predict(src, token)
      modifies this
      ensures Configuration(d) == M.Transit(text, handler, old(Configuration(src)), dst)
      ensures !d.Error? ==> Mirrored()
    {
      hide JsonGrammar.ParseValue, JsonGrammar.ParseString, Encoded;
      match dst
      case ObjectInitial =>
        d := Open(src, dst);
      case ArrayInitial =>
        d := Open(src, dst);
      case MemberKey =>
        ParseString(true);
        return if status.Bad? then M.Error else dst;
      case KeyValueDelimiter =>
        if token.ColonToken? {
          pos := pos + 1;
          return dst;
        }
        return M.Error;
      case MemberValue =>
        ParseValue();
        return if status.Bad? then M.Error else dst;
      case Element =>
        ParseValue();
        return if status.Bad? then M.Error else dst;
      case MemberDelimiter =>
        pos := pos + 1;
        CountOne();
        return dst;
      case ElementDelimiter =>
        pos := pos + 1;
        CountOne();
        return dst;
      case ObjectFinish =>
        d := Finish(src);
      case ArrayFinish =>
        d := Finish(src);
      case SingleValue =>
        ParseValue();
        return if status.Bad? then M.Error else M.Finish;
      case _ =>
        return M.Error;
    }

    /** Open a container: push where the one below goes on, report, take the bracket. */
    method Open(src: M.State, dst: M.State) returns (d: M.State)
      requires Mirrored() && M.Ready(text, Configuration(src)) && Cur() != NUL
      requires dst == M.Predict(src, M.Tokenize(Cur())) && (dst.ObjectInitial? || dst.ArrayInitial?)
      modifies this
      ensures Configuration(d) == M.Transit(text, handler, old(Configuration(src)), dst)
      ensures Mirrored()
    {
      PushFrame(M.Resumption(src));
      Report(if dst.ObjectInitial? then StartObject else StartArray, pos);
      if status.Bad? {
        return M.Error;
      }
      pos := pos + 1;
      return dst;
    }

    /** Close the container on top: pop its frame, count the value before the bracket, report. */
    method Finish(src: M.State) returns (d: M.State)
      requires Mirrored() && M.Ready(text, Configuration(src)) && Cur() != NUL
      requires var dst := M.Predict(src, M.Tokenize(Cur())); dst.ObjectFinish? || dst.ArrayFinish?
      modifies this
      ensures Configuration(d) == M.Next(text, handler, old(Configuration(src)))
      ensures !d.Error? ==> Mirrored()
    {
      M.NextCloses(text, handler, Configuration(src));
      M.NextReady(text, handler, Configuration(src));
      hide M.Next, M.Predict, M.Tokenize, M.Mirrors, Encoded;
      var c, n := PopFrame();
      if src.MemberValue? || src.Element? {
        c := c + 1;
      }
      if n.Start? {
        n := M.Finish;
      }
      Report(if M.InArray(src) then EndArray(c) else EndObject(c), pos);
      if status.Bad? {
        return M.Error;
      }
      pos := pos + 1;
      return n;
    }

    method HandleError(src: M.State)
      modifies `status
      ensures Now() == M.HandleError(src, old(Now()))
    {
      if status.Bad? {
        return;
      }
      status := Bad(M.SyntaxError(src), pos);
    }

    /** Parse with kParseIterativeFlag, from wherever the stream stands: the verdict and the events are
        those of the recursive parser, whatever the handler answers. */
    method IterativeParse(stopWhenDone: bool)
      requires pos <= |text| && stack == []
      modifies this
      ensures Now() == M.IterativeParse(text, old(pos), old(log), handler, stopWhenDone)
      ensures M.Agree(Now(), ParseFrom(text, old(pos), old(log), handler, stopWhenDone))
      ensures stack == []
    {
      status := Good;
      frames := [];
      var state := M.Start;
      SkipWhitespace();
      ghost var whole := M.IterativeParse(text, old(pos), old(log), handler, stopWhenDone);
      var going := true;
      while going && Cur() != NUL
        invariant going ==>
          && Mirrored()
          && M.Ready(text, Configuration(state))
          && M.Run(text, handler, stopWhenDone, Configuration(state)) == whole
        invariant !going ==> if state.Finish? then Now() == whole else M.HandleError(state, Now()) == whole
        decreases going, |text| - pos
      {
        var t := M.Tokenize(Cur());
        var n := M.Predict(state, t);
        var d := Transit(state, t, n);
        if d.Error? {
          HandleError(state);
          going := false;
        } else {
          state := d;
          if stopWhenDone && state.Finish? {
            going := false;
          } else {
            SkipWhitespace();
          }
        }
      }
      if !state.Finish? {
        HandleError(state);
      }
      stack := [];
      M.IterativeAgrees(text, old(pos), old(log), handler, stopWhenDone);
    }
  }
}
