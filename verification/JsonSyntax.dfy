/** The lexemes of JSON as section 2 of RFC 4627 has them, and the reader's scanners: each reads exactly its
    lexemes. Bytes above 0x7F are free, and an escaped high surrogate needs its low one. */
module JsonSyntax {
  import opened Bytes
  import opened JsonEvents
  import opened JsonGrammar
  import opened JsonRoundTrip

  // ---------------------------------------------------------------- white space

  predicate Space(s: bytes) {
    forall k | 0 <= k < |s| :: IsSpace(s[k])
  }

  lemma {:induction false} PassesSpace(t: bytes, p: nat)
    requires p <= |t|
    ensures forall k | p <= k < SkipSpace(t, p) :: IsSpace(t[k])
    decreases |t| - p
  {
    if IsSpace(Peek(t, p)) {
      PassesSpace(t, p + 1);
    }
  }

  lemma SpaceSkipped(t: bytes, p: nat) returns (s: bytes)
    requires p <= |t|
    ensures Space(s) && t[p..] == s + t[SkipSpace(t, p)..]
  {
    hide SkipSpace, IsSpace;
    PassesSpace(t, p);
    s := t[p..SkipSpace(t, p)];
  }

  // ---------------------------------------------------------------- strings

  /** char = unescaped / escape ...: a byte as it is, a short escape, a code unit in hexadecimal, or two of
      them that make up a character beyond the first plane. */
  datatype Char = Raw(c: byte) | Short(c: byte) | Code(digits: bytes) | Pair(high: bytes, low: bytes)

  predicate IsHex4(d: bytes) {
    |d| == 4 && forall k | 0 <= k < 4 :: HexDigit(d[k]) >= 0
  }

  function HexValue(d: bytes): (v: nat)
    requires IsHex4(d)
    ensures v < 0x10000
  {
    HexDigit(d[0]) * 0x1000 + HexDigit(d[1]) * 0x100 + HexDigit(d[2]) * 0x10 + HexDigit(d[3])
  }

  predicate CharOk(x: Char) {
    match x
    case Raw(c) => c >= 0x20 && c != QUOTE && c != BACKSLASH
    case Short(c) => ShortEscape(c) != 0
    case Code(d) => IsHex4(d) && !(0xD800 <= HexValue(d) <= 0xDBFF)
    case Pair(a, b) => IsHex4(a) && 0xD800 <= HexValue(a) <= 0xDBFF && IsHex4(b) && 0xDC00 <= HexValue(b) <= 0xDFFF
  }

  function CharThen(x: Char, rest: bytes): bytes {
    match x
    case Raw(c) => [c] + rest
    case Short(c) => [BACKSLASH, c] + rest
    case Code(d) => [BACKSLASH, LOWER_U] + (d + rest)
    case Pair(a, b) => [BACKSLASH, LOWER_U] + (a + ([BACKSLASH, LOWER_U] + (b + rest)))
  }

  function CharBytes(x: Char): bytes
    requires CharOk(x)
  {
    match x
    case Raw(c) => [c]
    case Short(c) => [ShortEscape(c)]
    case Code(d) => Utf8.Encode(HexValue(d))
    case Pair(a, b) => Utf8.Encode(SurrogatePair(HexValue(a), HexValue(b)))
  }

  predicate CharsOk(xs: seq<Char>) {
    forall k | 0 <= k < |xs| :: CharOk(xs[k])
  }

  /** The chars, the closing quote and what follows. */
  function CharsThen(xs: seq<Char>, rest: bytes): bytes {
    if xs == [] then [QUOTE] + rest else CharThen(xs[0], CharsThen(xs[1..], rest))
  }

  function CharsBytes(xs: seq<Char>): bytes
    requires CharsOk(xs)
  {
    if xs == [] then [] else CharBytes(xs[0]) + CharsBytes(xs[1..])
  }

  /** A backslash, a u and four digits. */
  lemma UnitRead(t: bytes, p: nat, d: bytes, rest: bytes)
    requires Suffix(t, p, [BACKSLASH, LOWER_U] + (d + rest)) && IsHex4(d)
    ensures p + 6 <= |t| && t[p] == BACKSLASH && t[p + 1] == LOWER_U
    ensures Suffix(t, p + 6, rest) && Hex4(t, p + 2, 0, 0) == HexOk(HexValue(d))
  {
    SuffixSplit(t, p, [BACKSLASH, LOWER_U], d + rest);
    SuffixSplit(t, p + 2, d, rest);
    assert t[p] == t[p..p + 2][0] && t[p + 1] == t[p..p + 2][1];
    assert forall k | 0 <= k < 4 :: t[p + 2 + k] == t[p + 2..p + 6][k] == d[k];
    assert forall i | p + 2 <= i < p + 6 :: t[i] == d[i - p - 2];
    Hex4Reads(t, p + 2);
  }

  /** A char is one step of the scanner, and yields its bytes. */
  lemma CharRead(t: bytes, p: nat, x: Char, rest: bytes)
    requires Suffix(t, p, CharThen(x, rest)) && CharOk(x)
    ensures |rest| <= |t| && Suffix(t, |t| - |rest|, rest)
    ensures NextUnit(t, p) == Piece(|t| - |rest|, CharBytes(x))
  {
    hide Hex4, Utf8.Encode;
    match x
    case Raw(c) => SuffixHead(t, p, c, rest);
    case Short(c) =>
      SuffixSplit(t, p, [BACKSLASH, c], rest);
      assert t[p] == t[p..p + 2][0] && t[p + 1] == t[p..p + 2][1];
    case Code(d) => UnitRead(t, p, d, rest);
    case Pair(a, b) =>
      UnitRead(t, p, a, [BACKSLASH, LOWER_U] + (b + rest));
      UnitRead(t, p + 6, b, rest);
  }

  lemma {:induction false} CharsRead(t: bytes, p: nat, xs: seq<Char>, rest: bytes)
    requires Suffix(t, p, CharsThen(xs, rest)) && CharsOk(xs)
    ensures |rest| < |t| && Suffix(t, |t| - |rest|, rest)
    ensures Body(t, p) == Closed(|t| - |rest|, CharsBytes(xs))
    decreases |xs|
  {
    hide NextUnit, CharThen, CharOk, CharBytes;
    if xs == [] {
      BodyEnds(t, p, rest);
    } else {
      var tail := CharsThen(xs[1..], rest);
      CharRead(t, p, xs[0], tail);
      CharsRead(t, |t| - |tail|, xs[1..], rest);
    }
  }

  lemma {:induction false} HexFound(t: bytes, p: nat)
    requires p <= |t| && Hex4(t, p, 0, 0).HexOk?
    ensures p + 4 <= |t| && IsHex4(t[p..p + 4])
  {
    hide Hex4;
    var i, acc := 0, 0;
    Hex4Step(t, p, 0, 0);
    var a := HexDigit(Peek(t, p));
    Hex4Step(t, p + 1, 1, a);
    var b := a * 16 + HexDigit(Peek(t, p + 1));
    Hex4Step(t, p + 2, 2, b);
    var c := b * 16 + HexDigit(Peek(t, p + 2));
    Hex4Step(t, p + 3, 3, c);
  }

  /** A code unit at p. */
  lemma UnitFound(t: bytes, p: nat) returns (d: bytes)
    requires p < |t| && t[p] == BACKSLASH && Peek(t, p + 1) == LOWER_U && Hex4(t, p + 2, 0, 0).HexOk?
    ensures p + 6 <= |t| && IsHex4(d) && t[p..] == [BACKSLASH, LOWER_U] + (d + t[p + 6..])
    ensures Hex4(t, p + 2, 0, 0) == HexOk(HexValue(d))
  {
    HexFound(t, p + 2);
    d := t[p + 2..p + 6];
    assert t[p..] == [BACKSLASH, LOWER_U] + (d + t[p + 6..]);
    UnitRead(t, p, d, t[p + 6..]);
  }

  /** And every step of the scanner is a char. */
  lemma CharFound(t: bytes, p: nat) returns (x: Char)
    requires p <= |t| && NextUnit(t, p).Piece?
    ensures CharOk(x) && t[p..] == CharThen(x, t[NextUnit(t, p).next..]) && NextUnit(t, p).out == CharBytes(x)
  {
    hide Hex4, Utf8.Encode, HexValue, IsHex4;
    var c := t[p];
    if c != BACKSLASH {
      x := Raw(c);
      assert t[p..] == [c] + t[p + 1..];
    } else if ShortEscape(Peek(t, p + 1)) != 0 {
      x := Short(t[p + 1]);
      assert t[p..] == [BACKSLASH, t[p + 1]] + t[p + 2..];
    } else {
      var a := UnitFound(t, p);
      if 0xD800 <= HexValue(a) <= 0xDBFF {
        var b := UnitFound(t, p + 6);
        x := Pair(a, b);
      } else {
        x := Code(a);
      }
    }
  }

  lemma {:induction false} CharsFound(t: bytes, p: nat) returns (xs: seq<Char>)
    requires p <= |t| && Body(t, p).Closed?
    ensures CharsOk(xs) && t[p..] == CharsThen(xs, t[Body(t, p).next..]) && Body(t, p).s == CharsBytes(xs)
    decreases |t| - p
  {
    hide Escape, CharThen, CharOk, CharBytes;
    match NextUnit(t, p)
    case Close(q) =>
      xs := [];
      assert t[p..] == [QUOTE] + t[q..];
    case Piece(q, out) =>
      var x := CharFound(t, p);
      var more := CharsFound(t, q);
      xs := [x] + more;
      assert xs[1..] == more;
  }

  // ---------------------------------------------------------------- numbers

  /** exp = e [ minus / plus ] 1*DIGIT, or nothing. */
  datatype Exp = NoExp | Exp(e: byte, sign: bytes, digits: bytes)

  /** number = [ minus ] int [ frac ] [ exp ]; frac holds the digits after the point. */
  datatype Number = Number(minus: bool, whole: bytes, frac: bytes, exp: Exp)

  predicate DigitsOk(s: bytes) {
    forall k | 0 <= k < |s| :: IsDigit(s[k])
  }

  predicate ExpOk(x: Exp) {
    match x
    case NoExp => true
    case Exp(e, sign, digits) =>
      IsE(e) && (sign == [] || sign == [PLUS] || sign == [MINUS]) && digits != [] && DigitsOk(digits)
  }

  predicate NumberOk(n: Number) {
    && n.whole != [] && DigitsOk(n.whole) && (n.whole[0] == ZERO ==> |n.whole| == 1)
    && DigitsOk(n.frac)
    && ExpOk(n.exp)
  }

  /** Neither the integer part nor a positive exponent is too big for a double. */
  predicate NumberFits(n: Number)
    requires NumberOk(n)
  {
    && ValueOf(n.whole) < 10 * DOUBLE_LIMIT
    && (n.exp.Exp? && n.exp.sign != [MINUS] ==> ValueOf(n.exp.digits) <= 308)
  }

  function ExpThen(x: Exp, rest: bytes): bytes {
    match x
    case NoExp => rest
    case Exp(e, sign, digits) => [e] + (sign + (digits + rest))
  }

  function FracThen(frac: bytes, rest: bytes): bytes {
    if frac == [] then rest else [DOT] + (frac + rest)
  }

  function NumberThen(n: Number, rest: bytes): bytes {
    var body := n.whole + FracThen(n.frac, ExpThen(n.exp, rest));
    if n.minus then [MINUS] + body else body
  }

  /** The event of a number that fits: an integer's exact value, or the literal of a double. */
  function NumberHeard(n: Number): Event
    requires NumberOk(n)
  {
    if n.frac == [] && n.exp.NoExp? then IntegerEvent(n.minus, ValueOf(n.whole), NumberThen(n, []))
    else Double(NumberThen(n, []))
  }

  lemma DigitsAt(t: bytes, p: nat, s: bytes, rest: bytes)
    requires Suffix(t, p, s + rest) && DigitsOk(s)
    ensures |rest| <= |t| && p + |s| == |t| - |rest| && Suffix(t, p + |s|, rest) && t[p..p + |s|] == s
    ensures AllDigits(t, p, p + |s|) && RunValue(t, p, p + |s|) == ValueOf(s)
    ensures s != [] ==> t[p] == s[0]
  {
    SuffixSplit(t, p, s, rest);
    assert forall k | p <= k < p + |s| :: t[k] == t[p..p + |s|][k - p];
  }

  /** The digits of an exponent are refused exactly when a positive one is above 308. */
  lemma {:induction false} ExpDigitsExactly(t: bytes, q: nat, p: nat, r: nat, minus: bool)
    requires AllDigits(t, q, r) && !IsDigit(Peek(t, r)) && q < p <= r
    requires !minus ==> RunValue(t, q, p) <= 308
    ensures ExpDigits(t, p, RunValue(t, q, p), minus).Done? <==> minus || RunValue(t, q, r) <= 308
    ensures ExpDigits(t, p, RunValue(t, q, p), minus).Done? ==> ExpDigits(t, p, RunValue(t, q, p), minus).next == r
    decreases r - p
  {
    hide RunValue;
    if p < r {
      RunMore(t, q, p);
      if !minus && RunValue(t, q, p + 1) > 308 {
        if p + 1 < r {
          RunGrows(t, q, p + 1, r);
        }
      } else {
        ExpDigitsExactly(t, q, p + 1, r, minus);
      }
    }
  }

  predicate ExpStops(x: Exp, c: byte) {
    if x.Exp? then !IsDigit(c) else !IsE(c)
  }

  /** What follows a number is no part of it. */
  predicate Stops(n: Number, c: byte) {
    && ExpStops(n.exp, c)
    && (n.exp.NoExp? ==> if n.frac != [] then !IsDigit(c) else c != DOT && (n.whole == [ZERO] || !IsDigit(c)))
  }

  lemma ExpRead(t: bytes, p: nat, x: Exp, rest: bytes)
    requires Suffix(t, p, ExpThen(x, rest)) && ExpOk(x) && ExpStops(x, First(rest))
    ensures |rest| <= |t| && Suffix(t, |t| - |rest|, rest)
    ensures x.Exp? && x.sign != [MINUS] && ValueOf(x.digits) > 308 ==> Exponent(t, p).error.Bad?
    ensures !(x.Exp? && x.sign != [MINUS] && ValueOf(x.digits) > 308) ==>
              Exponent(t, p) == Part(|t| - |rest|, x.Exp?, Good)
  {
    hide ExpDigits, ValueOf, DigitsOk, Suffix;
    SuffixPeek(t, p, ExpThen(x, rest));
    if x.Exp? {
      SignRead(t, p, x, rest);
      ExpDigitsRead(t, p + 1 + |x.sign|, x.digits, rest, x.sign == [MINUS]);
    } else {
      SuffixEnd(t, p, rest);
    }
  }

  /** The sign, if there is one, stands before the first digit. */
  lemma SignRead(t: bytes, p: nat, x: Exp, rest: bytes)
    requires x.Exp? && ExpOk(x) && Suffix(t, p, ExpThen(x, rest))
    ensures p < |t| && t[p] == x.e && Suffix(t, p + 1 + |x.sign|, x.digits + rest)
    ensures var c := Peek(t, p + 1); if x.sign == [] then c != PLUS && c != MINUS else c == x.sign[0]
  {
    SuffixHead(t, p, x.e, x.sign + (x.digits + rest));
    SuffixSplit(t, p + 1, x.sign, x.digits + rest);
    SuffixPeek(t, p + 1, x.sign + (x.digits + rest));
  }

  lemma ExpDigitsRead(t: bytes, q: nat, digits: bytes, rest: bytes, minus: bool)
    requires Suffix(t, q, digits + rest) && digits != [] && DigitsOk(digits) && !IsDigit(First(rest))
    ensures |rest| <= |t| && Suffix(t, |t| - |rest|, rest) && q < |t| && IsDigit(t[q])
    ensures var s := ExpDigits(t, q + 1, t[q] - ZERO, minus);
            if minus || ValueOf(digits) <= 308 then s == Done(|t| - |rest|) else s.TooBig?
  {
    hide ExpDigits, RunValue, ValueOf;
    var r := |t| - |rest|;
    DigitsAt(t, q, digits, rest);
    SuffixPeek(t, r, rest);
    RunOne(t, q);
    ExpDigitsExactly(t, q, q + 1, r, minus);
  }

  lemma FracRead(t: bytes, p: nat, frac: bytes, rest: bytes)
    requires Suffix(t, p, FracThen(frac, rest)) && DigitsOk(frac)
    requires if frac == [] then First(rest) != DOT else !IsDigit(First(rest))
    ensures |rest| <= |t| && Suffix(t, |t| - |rest|, rest)
    ensures Fraction(t, p) == Part(|t| - |rest|, frac != [], Good)
  {
    hide RunValue, ValueOf;
    SuffixPeek(t, p, FracThen(frac, rest));
    if frac != [] {
      SuffixHead(t, p, DOT, frac + rest);
      DigitsAt(t, p + 1, frac, rest);
      SuffixPeek(t, |t| - |rest|, rest);
      RunStops(t, p + 1, |t| - |rest|);
    }
  }

  lemma NumberCut(n: Number, rest: bytes)
    ensures NumberThen(n, rest) == NumberThen(n, []) + rest
  {
    if n.exp.Exp? {
      assert n.exp.digits + [] == n.exp.digits;
    }
    assert n.frac + ExpThen(n.exp, rest) == n.frac + ExpThen(n.exp, []) + rest;
  }

  lemma WholeRead(t: bytes, q: nat, n: Number, rest: bytes)
    requires Suffix(t, q, n.whole + rest) && NumberOk(n) && (n.whole == [ZERO] || !IsDigit(First(rest)))
    ensures |rest| <= |t| && Suffix(t, |t| - |rest|, rest)
    ensures q < |t| && IsDigit(t[q]) && IntegerEnd(t, q) == |t| - |rest|
    ensures t[q..|t| - |rest|] == n.whole
    ensures t[q] != ZERO && BigDigits(t, q, 0).TooBig? <==> ValueOf(n.whole) >= 10 * DOUBLE_LIMIT
  {
    hide RunValue, ValueOf, BigDigits, DOUBLE_LIMIT, DigitsEnd;
    DigitsAt(t, q, n.whole, rest);
    assert IsDigit(t[q]);
    SuffixPeek(t, |t| - |rest|, rest);
    hide DigitsOk, Suffix;
    RunRead(t, q, |t| - |rest|);
  }

  /** Digits, or a single zero. */
  lemma RunRead(t: bytes, q: nat, r: nat)
    requires AllDigits(t, q, r) && q < r && if t[q] == ZERO then r == q + 1 else !IsDigit(Peek(t, r))
    ensures IntegerEnd(t, q) == r
    ensures t[q] != ZERO && BigDigits(t, q, 0).TooBig? <==> RunValue(t, q, r) >= 10 * DOUBLE_LIMIT
  {
    hide RunValue, BigDigits, DOUBLE_LIMIT;
    if t[q] == ZERO {
      RunOne(t, q);
      DoubleLimitLarge();
    } else {
      RunStops(t, q, r);
      TooBigExactly(t, q, r);
    }
  }

  /** No part of a number goes on into the next. */
  lemma PartsStop(n: Number, rest: bytes)
    requires NumberOk(n) && Stops(n, First(rest))
    ensures var exp := ExpThen(n.exp, rest);
            && (if n.frac == [] then First(exp) != DOT else !IsDigit(First(exp)))
            && (n.whole == [ZERO] || !IsDigit(First(FracThen(n.frac, exp))))
  {
  }

  /** The parts of a number, where the scanner finds them. */
  lemma PartsRead(t: bytes, q: nat, n: Number, rest: bytes) returns (r: nat, f: nat)
    requires Suffix(t, q, n.whole + FracThen(n.frac, ExpThen(n.exp, rest))) && NumberOk(n) && Stops(n, First(rest))
    ensures |rest| <= |t| && Suffix(t, |t| - |rest|, rest) && q < r <= |t| && f <= |t|
    ensures IsDigit(t[q]) && IntegerEnd(t, q) == r && t[q..r] == n.whole
    ensures t[q] != ZERO && BigDigits(t, q, 0).TooBig? <==> ValueOf(n.whole) >= 10 * DOUBLE_LIMIT
    ensures Fraction(t, r) == Part(f, n.frac != [], Good)
    ensures n.exp.Exp? && n.exp.sign != [MINUS] && ValueOf(n.exp.digits) > 308 ==> Exponent(t, f).error.Bad?
    ensures !(n.exp.Exp? && n.exp.sign != [MINUS] && ValueOf(n.exp.digits) > 308) ==>
              Exponent(t, f) == Part(|t| - |rest|, n.exp.Exp?, Good)
  {
    hide BigDigits, Fraction, Exponent, IntegerEnd, ValueOf, DOUBLE_LIMIT, FracThen, ExpThen;
    var exp := ExpThen(n.exp, rest);
    var tail := FracThen(n.frac, exp);
    PartsStop(n, rest);
    WholeRead(t, q, n, tail);
    hide DigitsOk;
    r := |t| - |tail|;
    FracRead(t, r, n.frac, exp);
    f := |t| - |exp|;
    ExpRead(t, f, n.exp, rest);
  }

  /** A number that fits is read whole; one that does not is refused. */
  lemma NumberRead(t: bytes, p: nat, n: Number, rest: bytes, log: seq<Event>, h: Handler)
    requires Suffix(t, p, NumberThen(n, rest)) && NumberOk(n) && Stops(n, First(rest))
    ensures |rest| <= |t| && Suffix(t, |t| - |rest|, rest)
    ensures NumberFits(n) ==> ParseNumber(t, p, log, h) == Emit(h, |t| - |rest|, log, NumberHeard(n), |t| - |rest|)
    ensures !NumberFits(n) ==> ParseNumber(t, p, log, h).status.Bad?
  {
    hide BigDigits, Fraction, Exponent, IntegerEnd, ValueOf, DOUBLE_LIMIT, FracThen, ExpThen, Stops, DigitsOk, ExpOk;
    var body := n.whole + FracThen(n.frac, ExpThen(n.exp, rest));
    var q := if n.minus then p + 1 else p;
    if n.minus {
      SuffixHead(t, p, MINUS, body);
    }
    var r, f := PartsRead(t, q, n, rest);
    NumberCut(n, rest);
    SuffixSplit(t, p, NumberThen(n, []), rest);
  }

  lemma DigitsCut(t: bytes, p: nat)
    requires p <= |t|
    ensures DigitsOk(t[p..DigitsEnd(t, p)]) && t[p..] == t[p..DigitsEnd(t, p)] + t[DigitsEnd(t, p)..]
    ensures IsDigit(Peek(t, p)) ==> p < DigitsEnd(t, p)
  {
  }

  lemma FracFound(t: bytes, p: nat) returns (frac: bytes)
    requires p <= |t| && Fraction(t, p).error.Good?
    ensures DigitsOk(frac) && t[p..] == FracThen(frac, t[Fraction(t, p).next..])
    ensures Fraction(t, p).present <==> frac != []
    ensures var q := Fraction(t, p).next; if frac == [] then q == p && Peek(t, q) != DOT else !IsDigit(Peek(t, q))
  {
    frac := [];
    if Peek(t, p) == DOT {
      DigitsCut(t, p + 1);
      frac := t[p + 1..DigitsEnd(t, p + 1)];
      assert t[p..] == [DOT] + t[p + 1..];
    }
  }

  lemma {:induction false} ExpDigitsEnd(t: bytes, p: nat, v: nat, minus: bool)
    requires p <= |t| && ExpDigits(t, p, v, minus).Done?
    ensures ExpDigits(t, p, v, minus).next == DigitsEnd(t, p)
    decreases |t| - p
  {
    if IsDigit(Peek(t, p)) {
      ExpDigitsEnd(t, p + 1, v * 10 + (t[p] - ZERO), minus);
    }
  }

  lemma ExpFound(t: bytes, p: nat) returns (x: Exp)
    requires p <= |t| && Exponent(t, p).error.Good?
    ensures ExpOk(x) && t[p..] == ExpThen(x, t[Exponent(t, p).next..])
    ensures Exponent(t, p).present <==> x.Exp?
    ensures ExpStops(x, Peek(t, Exponent(t, p).next)) && (x.NoExp? ==> Exponent(t, p).next == p)
  {
    hide ExpDigits, DigitsOk;
    x := NoExp;
    if IsE(Peek(t, p)) {
      var c := Peek(t, p + 1);
      var sign: bytes := if c == PLUS || c == MINUS then [c] else [];
      var q := p + 1 + |sign|;
      ExpDigitsFound(t, q, c == MINUS);
      x := Exp(t[p], sign, t[q..ExpDigits(t, q + 1, t[q] - ZERO, c == MINUS).next]);
      SignCut(t, p, sign);
    }
  }

  /** The digits of an exponent, to their end. */
  lemma ExpDigitsFound(t: bytes, q: nat, minus: bool)
    requires q < |t| && IsDigit(t[q]) && ExpDigits(t, q + 1, t[q] - ZERO, minus).Done?
    ensures var r := ExpDigits(t, q + 1, t[q] - ZERO, minus).next;
            && q < r <= |t| && DigitsOk(t[q..r]) && t[q..] == t[q..r] + t[r..] && !IsDigit(Peek(t, r))
  {
    hide ExpDigits;
    ExpDigitsEnd(t, q + 1, t[q] - ZERO, minus);
    DigitsCut(t, q);
    assert DigitsEnd(t, q) == DigitsEnd(t, q + 1);
  }

  lemma SignCut(t: bytes, p: nat, sign: bytes)
    requires p < |t| && p + 1 + |sign| <= |t| && |sign| <= 1 && (sign != [] ==> t[p + 1] == sign[0])
    ensures t[p..] == [t[p]] + (sign + t[p + 1 + |sign|..])
  {
  }

  lemma WholeFound(t: bytes, q: nat)
    requires q <= |t| && IsDigit(Peek(t, q))
    ensures var r := IntegerEnd(t, q);
            && t[q..] == t[q..r] + t[r..] && t[q..r] != [] && DigitsOk(t[q..r])
            && (t[q] == ZERO ==> |t[q..r]| == 1) && (t[q..r] == [ZERO] || !IsDigit(Peek(t, r)))
  {
    DigitsCut(t, q);
  }

  /** What the reader takes for a number is one. */
  lemma NumberFound(t: bytes, p: nat, log: seq<Event>, h: Handler) returns (n: Number)
    requires p <= |t| && ParseNumber(t, p, log, h).status.Good?
    ensures NumberOk(n) && NumberFits(n) && t[p..] == NumberThen(n, t[ParseNumber(t, p, log, h).pos..])
    ensures ParseNumber(t, p, log, h).log == log + [NumberHeard(n)]
  {
    hide BigDigits, Fraction, Exponent, IntegerEnd, ValueOf, FracThen, ExpThen;
    var minus := Peek(t, p) == MINUS;
    var q := if minus then p + 1 else p;
    WholeFound(t, q);
    var r := IntegerEnd(t, q);
    var f := Fraction(t, r);
    var frac := FracFound(t, r);
    var exp := ExpFound(t, f.next);
    n := Number(minus, t[q..r], frac, exp);
    assert minus ==> t[p..] == [MINUS] + t[q..];
    var rest := t[Exponent(t, f.next).next..];
    SuffixPeek(t, Exponent(t, f.next).next, rest);
    assert Stops(n, First(rest));
    hide Stops, NumberOk, NumberFits, ExpStops, DigitsOk;
    NumberRead(t, p, n, rest, log, h);
  }
}
