/** What the recursive reader does with a text, as functions of the text, the position and the
    events already reported. The reader's methods and its table-driven twin are proved against them. */
module JsonGrammar {
  import opened Bytes
  import opened JsonEvents
  import Utf8

  /** Where a parse stands: cursor, events reported so far, and whether it goes on. */
  datatype Progress = Progress(pos: nat, log: seq<Event>, status: Status)

  function Fail(pos: nat, log: seq<Event>, code: ErrorCode, offset: int): Progress {
    Progress(pos, log, Bad(code, offset))
  }

  function Emit(h: Handler, pos: nat, log: seq<Event>, e: Event, at: nat): Progress {
    Progress(pos, log + [e], if h(log + [e]) then Good else Bad(Termination, at))
  }

  // ---------------------------------------------------------------- white space, literals

  function SkipSpace(t: bytes, p: nat): (q: nat)
    ensures p <= q
    ensures p <= |t| ==> q <= |t|
    ensures !IsSpace(Peek(t, q))
    decreases |t| - p
  {
    if IsSpace(Peek(t, p)) then SkipSpace(t, p + 1) else p
  }

  datatype Match = Match(ok: bool, next: nat)

  /** Take the bytes of word one by one, stopping after the first that differs. */
  function Word(t: bytes, p: nat, word: bytes): (m: Match)
    requires forall i | 0 <= i < |word| :: word[i] != NUL
    requires p <= |t|
    ensures m.ok ==> m.next == p + |word| <= |t|
    ensures p <= m.next <= |t| + 1
    decreases |word|
  {
    if word == [] then Match(true, p)
    else if Peek(t, p) == word[0] then Word(t, p + 1, word[1..])
    else Match(false, p + 1)
  }

  const ULL: bytes := [117, 108, 108]
  const RUE: bytes := [114, 117, 101]
  const ALSE: bytes := [97, 108, 115, 101]

  function ParseWord(t: bytes, p: nat, log: seq<Event>, h: Handler, rest: bytes, e: Event): (r: Progress)
    requires p < |t|
    requires forall i | 0 <= i < |rest| :: rest[i] != NUL
    ensures r.status.Good? ==> p < r.pos <= |t|
  {
    var m := Word(t, p + 1, rest);
    if m.ok then Emit(h, m.next, log, e, m.next) else Fail(m.next, log, ValueInvalid, m.next - 1)
  }

  // ---------------------------------------------------------------- strings

  /** The reader's escape table: 0 for a byte that is no short escape. */
  function ShortEscape(e: byte): byte {
    if e == QUOTE then QUOTE
    else if e == SLASH then SLASH
    else if e == BACKSLASH then BACKSLASH
    else if e == 98 then 8
    else if e == 102 then 12
    else if e == 110 then 10
    else if e == 114 then 13
    else if e == 116 then 9
    else 0
  }

  const LOWER_U: byte := 117

  function HexDigit(c: byte): int {
    if 48 <= c <= 57 then c - 48
    else if 65 <= c <= 70 then c - 55
    else if 97 <= c <= 102 then c - 87
    else -1
  }

  datatype Hex = HexOk(codepoint: nat) | HexBad(at: nat)

  /** The range of i hexadecimal digits. */
  function Hex4Range(i: nat): nat
    requires i <= 4
  {
    if i == 0 then 1 else if i == 1 then 0x10 else if i == 2 then 0x100 else if i == 3 then 0x1000 else 0x10000
  }

  /** The rest of four hexadecimal digits: i of them have been read into acc, the next is at p. */
  function Hex4(t: bytes, p: nat, i: nat, acc: nat): (x: Hex)
    requires i <= 4 && p <= |t| && acc < Hex4Range(i)
    ensures x.HexOk? ==> p + 4 - i <= |t| && x.codepoint < 0x10000
    ensures x.HexBad? ==> p <= x.at <= |t|
    decreases 4 - i
  {
    if i == 4 then HexOk(acc)
    else if HexDigit(Peek(t, p)) < 0 then HexBad(p)
    else Hex4(t, p + 1, i + 1, acc * 16 + HexDigit(Peek(t, p)))
  }

  lemma Hex4Ends(t: bytes, p: nat)
    requires p <= |t|
    ensures Hex4Range(0) == 1
    ensures forall acc | 0 <= acc < Hex4Range(4) :: Hex4(t, p, 4, acc) == HexOk(acc)
  {
  }

  /** One digit more. */
  lemma Hex4Step(t: bytes, p: nat, i: nat, acc: nat)
    requires i < 4 && p <= |t| && acc < Hex4Range(i)
    ensures var d := HexDigit(Peek(t, p));
            if d < 0 then Hex4(t, p, i, acc) == HexBad(p)
            else
              && p < |t| && acc * 16 + d < Hex4Range(i + 1)
              && Hex4(t, p, i, acc) == Hex4(t, p + 1, i + 1, acc * 16 + d)
  {
  }

  /** One step of the string scanner: the closing quote, some decoded bytes, or an error. */
  datatype Unit =
    | Close(next: nat)
    | Piece(next: nat, out: bytes)
    | Broken(next: nat, code: ErrorCode, offset: int)

  function SurrogatePair(lead: nat, trail: nat): (cp: nat)
    requires 0xD800 <= lead <= 0xDBFF && 0xDC00 <= trail <= 0xDFFF
    ensures 0x10000 <= cp <= 0x10FFFF
  {
    (lead - 0xD800) * 0x400 + (trail - 0xDC00) + 0x10000
  }

  /** The escape whose backslash is at p. */
  function Escape(t: bytes, p: nat): (u: Unit)
    requires p < |t| && t[p] == BACKSLASH
    ensures !u.Close?
    ensures u.Piece? ==> p < u.next <= |t|
    ensures u.Broken? ==> p < u.next <= |t| + 1
    ensures u.Piece? ==> 1 <= |u.out| <= 4 && p + |u.out| < u.next
  {
    var e := Peek(t, p + 1);
    if ShortEscape(e) != 0 then Piece(p + 2, [ShortEscape(e)])
    else if e == LOWER_U then
      match Hex4(t, p + 2, 0, 0)
      case HexBad(at) => Broken(at + 1, StringUnicodeEscapeInvalidHex, at)
      case HexOk(cp) =>
        if 0xD800 <= cp <= 0xDBFF then TrailEscape(t, p + 6, cp)
        else Piece(p + 6, Utf8.Encode(cp))
    else Broken(p + 2, StringEscapeInvalid, p + 1)
  }

  /** The second half of a surrogate pair, expected at q. */
  function TrailEscape(t: bytes, q: nat, lead: nat): (u: Unit)
    requires q <= |t| && 0xD800 <= lead <= 0xDBFF
    ensures !u.Close?
    ensures u.Piece? ==> u.next == q + 6 <= |t|
    ensures u.Broken? ==> q < u.next <= |t| + 1
  {
    if Peek(t, q) != BACKSLASH then Broken(q + 1, StringUnicodeSurrogateInvalid, q - 1)
    else if Peek(t, q + 1) != LOWER_U then Broken(q + 2, StringUnicodeSurrogateInvalid, q)
    else
      match Hex4(t, q + 2, 0, 0)
      case HexBad(at) => Broken(at + 1, StringUnicodeEscapeInvalidHex, at)
      case HexOk(trail) =>
        if 0xDC00 <= trail <= 0xDFFF then Piece(q + 6, Utf8.Encode(SurrogatePair(lead, trail)))
        else Broken(q + 6, StringUnicodeSurrogateInvalid, q + 4)
  }

  function NextUnit(t: bytes, p: nat): (u: Unit)
    requires p <= |t|
    ensures u.Close? ==> u.next == p + 1 <= |t|
    ensures u.Piece? ==> p < u.next <= |t| && 1 <= |u.out| <= 4 && p + |u.out| <= u.next
    ensures u.Broken? ==> p <= u.next <= |t| + 1
  {
    var c := Peek(t, p);
    if c == BACKSLASH then Escape(t, p)
    else if c == QUOTE then Close(p + 1)
    else if c == NUL then Broken(p, StringMissQuotationMark, p - 1)
    else if c < 0x20 then Broken(p, StringEscapeInvalid, p - 1)
    else Piece(p + 1, [c])
  }

  datatype StringBody = Closed(next: nat, s: bytes) | Refused(next: nat, code: ErrorCode, offset: int)

  /** The string whose opening quote stands just before p. */
  function Body(t: bytes, p: nat): (b: StringBody)
    requires p <= |t|
    ensures b.Closed? ==> p < b.next <= |t| && p + |b.s| < b.next
    ensures b.Refused? ==> p <= b.next <= |t| + 1
    decreases |t| - p
  {
    match NextUnit(t, p)
    case Close(q) => Closed(q, [])
    case Broken(q, code, offset) => Refused(q, code, offset)
    case Piece(q, out) => Prepend(out, Body(t, q))
  }

  function Prepend(out: bytes, b: StringBody): StringBody {
    if b.Closed? then Closed(b.next, out + b.s) else b
  }

  /** One step of the scanner, seen from the string already decoded. */
  lemma BodyStep(t: bytes, p: nat, out: bytes)
    requires p <= |t|
    ensures match NextUnit(t, p)
            case Close(q) => Prepend(out, Body(t, p)) == Closed(q, out)
            case Piece(q, more) => Prepend(out, Body(t, p)) == Prepend(out + more, Body(t, q))
            case Broken(q, code, offset) => Prepend(out, Body(t, p)) == Refused(q, code, offset)
  {
    match NextUnit(t, p)
    case Close(q) =>
    case Broken(_, _, _) =>
    case Piece(q, more) =>
      var b := Body(t, q);
      if b.Closed? {
        assert out + (more + b.s) == out + more + b.s;
      }
  }

  function ParseString(t: bytes, p: nat, log: seq<Event>, h: Handler, isKey: bool): (r: Progress)
    requires p < |t|
    ensures r.status.Good? ==> p < r.pos <= |t|
  {
    match Body(t, p + 1)
    case Closed(q, s) => Emit(h, q, log, if isKey then Key(s) else String(s), q)
    case Refused(q, code, offset) => Fail(q, log, code, offset)
  }

  // ---------------------------------------------------------------- numbers

  /** The end of the run of digits that starts at p. */
  function DigitsEnd(t: bytes, p: nat): (q: nat)
    requires p <= |t|
    ensures p <= q <= |t|
    ensures !IsDigit(Peek(t, q))
    ensures forall k | p <= k < q :: IsDigit(t[k])
    decreases |t| - p
  {
    if IsDigit(Peek(t, p)) then DigitsEnd(t, p + 1) else p
  }

  /** The number a run of decimal digits denotes. */
  function ValueOf(s: bytes): nat
    requires forall k | 0 <= k < |s| :: IsDigit(s[k])
  {
    if s == [] then 0
    else
      assert IsDigit(s[|s| - 1]);
      ValueOf(s[..|s| - 1]) * 10 + (s[|s| - 1] - ZERO)
  }

  function Pow10(n: nat): nat {
    if n == 0 then 1 else 10 * Pow10(n - 1)
  }

  /** The largest double divided by ten: 17976931348623157 * 10^291. */
  const DOUBLE_LIMIT: nat := 17976931348623157 * Pow10(291)

  datatype Scan = Done(next: nat) | TooBig(at: nat)

  /** Read digits into d until they end or d has no room for another. */
  function BigDigits(t: bytes, p: nat, d: nat): (s: Scan)
    requires p <= |t|
    ensures s.Done? ==> s.next == DigitsEnd(t, p)
    ensures s.TooBig? ==> p <= s.at <= |t|
    decreases |t| - p
  {
    if !IsDigit(Peek(t, p)) then Done(p)
    else if d >= DOUBLE_LIMIT then TooBig(p)
    else BigDigits(t, p + 1, d * 10 + (t[p] - ZERO))
  }

  /** Read exponent digits into exp; a positive exponent above 308 is refused. */
  function ExpDigits(t: bytes, p: nat, exp: nat, expMinus: bool): (s: Scan)
    requires p <= |t|
    ensures s.Done? ==> s.next == DigitsEnd(t, p)
    ensures s.TooBig? ==> p < s.at <= |t|
    decreases |t| - p
  {
    if !IsDigit(Peek(t, p)) then Done(p)
    else
      var exp' := exp * 10 + (t[p] - ZERO);
      if exp' > 308 && !expMinus then TooBig(p + 1) else ExpDigits(t, p + 1, exp', expMinus)
  }

  datatype Part = Part(next: nat, present: bool, error: Status)

  /** frac = decimal-point 1*DIGIT, or nothing. */
  function Fraction(t: bytes, p: nat): (f: Part)
    requires p <= |t|
    ensures p <= f.next <= |t|
  {
    if Peek(t, p) != DOT then Part(p, false, Good)
    else if !IsDigit(Peek(t, p + 1)) then Part(p + 1, true, Bad(NumberMissFraction, p + 1))
    else Part(DigitsEnd(t, p + 1), true, Good)
  }

  predicate IsE(c: byte) {
    c == 101 || c == 69
  }

  const PLUS: byte := 43

  /** exp = e [ minus / plus ] 1*DIGIT, or nothing. */
  function Exponent(t: bytes, p: nat): (x: Part)
    requires p <= |t|
    ensures p <= x.next <= |t|
  {
    if !IsE(Peek(t, p)) then Part(p, false, Good)
    else
      var c := Peek(t, p + 1);
      var q := if c == PLUS || c == MINUS then p + 2 else p + 1;
      if !IsDigit(Peek(t, q)) then Part(q, true, Bad(NumberMissExponent, q))
      else
        match ExpDigits(t, q + 1, t[q] - ZERO, c == MINUS)
        case Done(r) => Part(r, true, Good)
        case TooBig(at) => Part(at, true, Bad(NumberTooBig, at))
  }

  const TWO31: int := 0x8000_0000
  const TWO32: int := 0x1_0000_0000
  const TWO63: int := 0x8000_0000_0000_0000
  const TWO64: int := 0x1_0000_0000_0000_0000

  /** The event for an integer literal: the narrowest that holds it, or a double. */
  function IntegerEvent(minus: bool, v: nat, literal: bytes): Event {
    if minus then
      if v <= TWO31 then Int(-(v as int)) else if v <= TWO63 then Int64(-(v as int)) else Double(literal)
    else
      if v < TWO32 then Uint(v) else if v < TWO64 then Uint64(v) else Double(literal)
  }

  function IntegerEnd(t: bytes, q: nat): (r: nat)
    requires q <= |t|
    ensures q <= r <= |t|
    ensures forall k | q <= k < r :: IsDigit(t[k])
    ensures IsDigit(Peek(t, q)) ==> q < r
  {
    if Peek(t, q) == ZERO then q + 1 else DigitsEnd(t, q)
  }

  function ParseNumber(t: bytes, p: nat, log: seq<Event>, h: Handler): (r: Progress)
    requires p <= |t|
    ensures r.status.Good? ==> p < r.pos <= |t|
  {
    var minus := Peek(t, p) == MINUS;
    var q := if minus then p + 1 else p;
    if !IsDigit(Peek(t, q)) then Fail(q, log, ValueInvalid, q)
    else
      var r := IntegerEnd(t, q);
      var big := BigDigits(t, q, 0);
      if t[q] != ZERO && big.TooBig? then Fail(big.at, log, NumberTooBig, big.at)
      else
        var f := Fraction(t, r);
        if f.error.Bad? then Progress(f.next, log, f.error)
        else
          var x := Exponent(t, f.next);
          if x.error.Bad? then Progress(x.next, log, x.error)
          else
            var literal := t[p..x.next];
            var e := if f.present || x.present then Double(literal)
                     else IntegerEvent(minus, ValueOf(t[q..r]), literal);
            Emit(h, x.next, log, e, x.next)
  }

  // ---------------------------------------------------------------- runs of digits

  lemma Pow10Large(n: nat)
    ensures n >= 4 ==> Pow10(n) >= 10000
  {
    if n == 4 {
      assert Pow10(4) == 10 * Pow10(3) && Pow10(2) == 10 * Pow10(1);
    }
  }

  /** Every 64-bit number is below the largest double over ten. */
  lemma DoubleLimitLarge()
    ensures DOUBLE_LIMIT > TWO64
  {
    Pow10Large(291);
  }

  predicate AllDigits(t: bytes, q: nat, p: nat) {
    q <= p <= |t| && forall k | q <= k < p :: IsDigit(t[k])
  }

  function RunValue(t: bytes, q: nat, p: nat): nat
    requires AllDigits(t, q, p)
  {
    ValueOf(t[q..p])
  }

  lemma RunMore(t: bytes, q: nat, p: nat)
    requires AllDigits(t, q, p) && p < |t| && IsDigit(t[p])
    ensures AllDigits(t, q, p + 1)
    ensures RunValue(t, q, p + 1) == RunValue(t, q, p) * 10 + (t[p] - ZERO)
  {
    assert t[q..p + 1][..p - q] == t[q..p];
  }

  lemma RunOne(t: bytes, q: nat)
    requires q < |t| && IsDigit(t[q])
    ensures RunValue(t, q, q + 1) == t[q] - ZERO
  {
    assert t[q..q] == [];
    RunMore(t, q, q);
  }

  /** The digits from q end where the digits from a later one of them end, and scan alike. */
  lemma RunEnds(t: bytes, q: nat, p: nat)
    requires AllDigits(t, q, p)
    ensures DigitsEnd(t, q) == DigitsEnd(t, p)
    decreases p - q
  {
    if q < p {
      RunEnds(t, q + 1, p);
    }
  }

  lemma RunGrows(t: bytes, q: nat, p: nat, r: nat)
    requires AllDigits(t, q, r) && q <= p < r
    ensures RunValue(t, q, r) >= RunValue(t, q, p) * 10 + (t[p] - ZERO)
    decreases r
  {
    RunMore(t, q, r - 1);
    if p < r - 1 {
      RunGrows(t, q, p, r - 1);
    }
  }

  /** The digits from q to p have been read into v, and reading them as a double is still to do. */
  predicate Accumulated(t: bytes, q: nat, p: nat, v: nat) {
    && q < p
    && AllDigits(t, q, p)
    && v == RunValue(t, q, p)
    && BigDigits(t, p, v) == BigDigits(t, q, 0)
  }

  lemma AccumulateFirst(t: bytes, q: nat)
    requires q < |t| && IsDigit(t[q])
    ensures Accumulated(t, q, q + 1, t[q] - ZERO)
  {
    DoubleLimitLarge();
    RunOne(t, q);
  }

  lemma AccumulateMore(t: bytes, q: nat, p: nat, v: nat)
    requires Accumulated(t, q, p, v) && p < |t| && IsDigit(t[p]) && v < TWO64
    ensures Accumulated(t, q, p + 1, v * 10 + (t[p] - ZERO))
  {
    DoubleLimitLarge();
    RunMore(t, q, p);
  }

  // ---------------------------------------------------------------- values

  const LOWER_N: byte := 110
  const LOWER_T: byte := 116
  const LOWER_F: byte := 102

  function ParseValue(t: bytes, p: nat, log: seq<Event>, h: Handler): (r: Progress)
    requires p <= |t|
    ensures r.status.Good? ==> p < r.pos <= |t|
    decreases |t| - p, 1
  {
    var c := Peek(t, p);
    if c == LBRACE then ParseObject(t, p, log, h)
    else if c == LBRACKET then ParseArray(t, p, log, h)
    else ParseScalar(t, p, log, h)
  }

  /** Any value but an object or an array. */
  function ParseScalar(t: bytes, p: nat, log: seq<Event>, h: Handler): (r: Progress)
    requires p <= |t|
    ensures r.status.Good? ==> p < r.pos <= |t|
  {
    var c := Peek(t, p);
    if c == LOWER_N then ParseWord(t, p, log, h, ULL, Null)
    else if c == LOWER_T then ParseWord(t, p, log, h, RUE, Bool(true))
    else if c == LOWER_F then ParseWord(t, p, log, h, ALSE, Bool(false))
    else if c == QUOTE then ParseString(t, p, log, h, false)
    else ParseNumber(t, p, log, h)
  }

  function ParseArray(t: bytes, p: nat, log: seq<Event>, h: Handler): (r: Progress)
    requires p < |t|
    ensures r.status.Good? ==> p < r.pos <= |t|
    decreases |t| - p, 0
  {
    var s := Emit(h, p + 1, log, StartArray, p + 1);
    if s.status.Bad? then s else ArrayOpen(t, SkipSpace(t, p + 1), s.log, h)
  }

  /** After '[' and white space. */
  function ArrayOpen(t: bytes, p: nat, log: seq<Event>, h: Handler): (r: Progress)
    requires p <= |t|
    ensures r.status.Good? ==> p < r.pos <= |t|
    decreases |t| - p, 3
  {
    if Peek(t, p) == RBRACKET then Emit(h, p + 1, log, EndArray(0), p + 1)
    else Elements(t, p, log, h, 0)
  }

  /** At an element, n elements being complete. */
  function Elements(t: bytes, p: nat, log: seq<Event>, h: Handler, n: nat): (r: Progress)
    requires p <= |t|
    ensures r.status.Good? ==> p < r.pos <= |t|
    decreases |t| - p, 2
  {
    var v := ParseValue(t, p, log, h);
    if v.status.Bad? then v else AfterElement(t, v.pos, v.log, h, n)
  }

  /** Just after an element, n elements being complete before it. */
  function AfterElement(t: bytes, p: nat, log: seq<Event>, h: Handler, n: nat): (r: Progress)
    requires p <= |t|
    ensures r.status.Good? ==> p < r.pos <= |t|
    decreases |t| - p, 0
  {
    var q := SkipSpace(t, p);
    var c := Peek(t, q);
    if c == COMMA then Elements(t, SkipSpace(t, q + 1), log, h, n + 1)
    else if c == RBRACKET then Emit(h, q + 1, log, EndArray(n + 1), q + 1)
    else Fail(q + 1, log, ArrayMissCommaOrSquareBracket, q + 1)
  }

  function ParseObject(t: bytes, p: nat, log: seq<Event>, h: Handler): (r: Progress)
    requires p < |t|
    ensures r.status.Good? ==> p < r.pos <= |t|
    decreases |t| - p, 0
  {
    var s := Emit(h, p + 1, log, StartObject, p + 1);
    if s.status.Bad? then s else ObjectOpen(t, SkipSpace(t, p + 1), s.log, h)
  }

  /** After '{' and white space. */
  function ObjectOpen(t: bytes, p: nat, log: seq<Event>, h: Handler): (r: Progress)
    requires p <= |t|
    ensures r.status.Good? ==> p < r.pos <= |t|
    decreases |t| - p, 3
  {
    if Peek(t, p) == RBRACE then Emit(h, p + 1, log, EndObject(0), p + 1)
    else Members(t, p, log, h, 0)
  }

  /** At a member's name, n members being complete. */
  function Members(t: bytes, p: nat, log: seq<Event>, h: Handler, n: nat): (r: Progress)
    requires p <= |t|
    ensures r.status.Good? ==> p < r.pos <= |t|
    decreases |t| - p, 2
  {
    if Peek(t, p) != QUOTE then Fail(p, log, ObjectMissName, p)
    else
      var k := ParseString(t, p, log, h, true);
      if k.status.Bad? then k else AfterKey(t, k.pos, k.log, h, n)
  }

  /** Just after a member's name. */
  function AfterKey(t: bytes, p: nat, log: seq<Event>, h: Handler, n: nat): (r: Progress)
    requires p <= |t|
    ensures r.status.Good? ==> p < r.pos <= |t|
    decreases |t| - p, 0
  {
    var q := SkipSpace(t, p);
    if Peek(t, q) != COLON then Fail(q + 1, log, ObjectMissColon, q + 1)
    else MemberValue(t, SkipSpace(t, q + 1), log, h, n)
  }

  /** At a member's value. */
  function MemberValue(t: bytes, p: nat, log: seq<Event>, h: Handler, n: nat): (r: Progress)
    requires p <= |t|
    ensures r.status.Good? ==> p < r.pos <= |t|
    decreases |t| - p, 2
  {
    var v := ParseValue(t, p, log, h);
    if v.status.Bad? then v else AfterMember(t, v.pos, v.log, h, n)
  }

  /** Just after a member's value, n members being complete before it. */
  function AfterMember(t: bytes, p: nat, log: seq<Event>, h: Handler, n: nat): (r: Progress)
    requires p <= |t|
    ensures r.status.Good? ==> p < r.pos <= |t|
    decreases |t| - p, 0
  {
    var q := SkipSpace(t, p);
    var c := Peek(t, q);
    if c == COMMA then Members(t, SkipSpace(t, q + 1), log, h, n + 1)
    else if c == RBRACE then Emit(h, q + 1, log, EndObject(n + 1), q + 1)
    else Fail(q + 1, log, ObjectMissCommaOrCurlyBracket, q + 1)
  }

  /** What follows the root value; with stopWhenDone the rest of the text is left alone. */
  function AfterRoot(t: bytes, p: nat, log: seq<Event>, stopWhenDone: bool): Progress {
    if stopWhenDone then Progress(p, log, Good)
    else
      var q := SkipSpace(t, p);
      if Peek(t, q) != NUL then Fail(q, log, DocumentRootNotSingular, q) else Progress(q, log, Good)
  }

  /** Parse, on a stream read up to pos by a handler that has had the events of log. */
  function ParseFrom(t: bytes, pos: nat, log: seq<Event>, h: Handler, stopWhenDone: bool): Progress
    requires pos <= |t|
  {
    var p := SkipSpace(t, pos);
    if Peek(t, p) == NUL then Fail(p, log, DocumentEmpty, p)
    else
      var v := ParseValue(t, p, log, h);
      if v.status.Bad? then v else AfterRoot(t, v.pos, v.log, stopWhenDone)
  }

  /** Parse, on a fresh stream. */
  function ParseDocument(t: bytes, h: Handler, stopWhenDone: bool): Progress {
    ParseFrom(t, 0, [], h, stopWhenDone)
  }
}
