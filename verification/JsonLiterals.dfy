/** The text of JSON in its own characters: what Writer and PrettyWriter put out, and what the characters of
    section 2 of RFC 4627 mean to the reader. */
module JsonLiterals {
  import opened Bytes
  import opened JsonGrammar
  import opened JsonDom
  import opened JsonText
  import opened JsonSyntax
  import Utf8

  // ---------------------------------------------------------------- numbers and strings

  /** A natural number in decimal. */
  function Numeral(n: nat): bytes {
    (if n < 10 then [] else Numeral(n / 10)) + ['0' as int + n % 10]
  }

  function Integer(n: int): bytes {
    if n < 0 then Ascii("-") + Numeral(-n) else Numeral(n)
  }

  function HexDigits(): string { "0123456789ABCDEF" }

  /** A byte inside a string. */
  function Escaped(c: byte): bytes {
    if c == '"' as int then Ascii("\\\"")
    else if c == '\\' as int then Ascii("\\\\")
    else if c == 8 then Ascii("\\b")
    else if c == 9 then Ascii("\\t")
    else if c == 10 then Ascii("\\n")
    else if c == 12 then Ascii("\\f")
    else if c == 13 then Ascii("\\r")
    else if c < 32 then Ascii("\\u00") + [HexDigits()[c / 16] as int, HexDigits()[c % 16] as int]
    else [c]
  }

  function AllEscaped(s: bytes): bytes {
    if s == [] then [] else Escaped(s[0]) + AllEscaped(s[1..])
  }

  function Quoted(s: bytes): bytes {
    Ascii("\"") + AllEscaped(s) + Ascii("\"")
  }

  // ---------------------------------------------------------------- values

  /** A new line and its indent, if there are any. */
  function NewLine(lay: Layout, depth: nat): bytes {
    match lay
    case Compact => []
    case Pretty(c, n) => Ascii("\n") + seq(depth * n, _ => c)
  }

  function Comma(lay: Layout, depth: nat): bytes {
    Ascii(",") + NewLine(lay, depth)
  }

  function Colon(lay: Layout): bytes {
    if lay.Compact? then Ascii(":") else Ascii(": ")
  }

  /** The text of a value inside depth containers. */
  function Printed(v: Value, lay: Layout, depth: nat): bytes
    decreases v, 1
  {
    match v
    case NullValue => Ascii("null")
    case BoolValue(b) => if b then Ascii("true") else Ascii("false")
    case NumberValue(n, _) => Integer(n)
    case DoubleValue(literal) => literal
    case StringValue(s) => Quoted(s)
    case ArrayValue(vs) =>
      if vs == [] then Ascii("[]")
      else Ascii("[") + NewLine(lay, depth + 1) + Elements(vs, lay, depth + 1) + NewLine(lay, depth) + Ascii("]")
    case ObjectValue(ms) =>
      if ms == [] then Ascii("{}")
      else Ascii("{") + NewLine(lay, depth + 1) + Members(ms, lay, depth + 1) + NewLine(lay, depth) + Ascii("}")
  }

  function Elements(vs: seq<Value>, lay: Layout, depth: nat): bytes
    requires vs != []
    decreases vs, 0
  {
    Printed(vs[0], lay, depth) + if |vs| == 1 then [] else Comma(lay, depth) + Elements(vs[1..], lay, depth)
  }

  function Members(ms: seq<Member>, lay: Layout, depth: nat): bytes
    requires ms != []
    decreases ms, 0
  {
    Quoted(ms[0].name) + Colon(lay) + Printed(ms[0].value, lay, depth)
    + if |ms| == 1 then [] else Comma(lay, depth) + Members(ms[1..], lay, depth)
  }

  // ---------------------------------------------------------------- that is what is written

  lemma {:induction false} DecimalIs(n: nat)
    ensures Decimal(n) == Numeral(n)
  {
    if n >= 10 {
      DecimalIs(n / 10);
    }
  }

  lemma IntegerIs(n: int)
    ensures IntegerText(n) == Integer(n)
  {
    DecimalIs(if n < 0 then -n else n);
  }

  lemma EscapeIs(c: byte)
    ensures EscapeByte(c) == Escaped(c)
  {
    if EscapeCode(c) == LOWER_U {
      HexIs(c / 16);
      HexIs(c % 16);
    }
  }

  lemma HexIs(d: nat)
    requires d < 16
    ensures HexChar(d) == HexDigits()[d] as int
  {
    assert HexDigits()
        == seq(16, (i: int) requires 0 <= i < 16 => if i < 10 then (48 + i) as char else (55 + i) as char);
  }

  lemma {:induction false} EscapedIs(s: bytes, rest: bytes)
    ensures EscapedThen(s, rest) == AllEscaped(s) + Ascii("\"") + rest
  {
    hide EscapeByte, Escaped;
    if s != [] {
      EscapeIs(s[0]);
      EscapedIs(s[1..], rest);
    }
  }

  lemma QuotedIs(s: bytes, rest: bytes)
    ensures QuotedThen(s, rest) == Quoted(s) + rest
  {
    hide EscapedThen, AllEscaped;
    EscapedIs(s, rest);
  }

  lemma GapIs(lay: Layout, depth: nat)
    ensures Gap(lay, depth) == NewLine(lay, depth)
    ensures [COMMA] + Gap(lay, depth) == Comma(lay, depth) && [COLON] + ColonGap(lay) == Colon(lay)
  {
  }

  /** The text of every value, in either layout and with any indent. */
  lemma {:induction false} TextIs(v: Value, lay: Layout, depth: nat, rest: bytes)
    ensures TextThen(v, lay, depth, rest) == Printed(v, lay, depth) + rest
    decreases v, 1
  {
    match v
    case NullValue =>
    case BoolValue(_) =>
    case NumberValue(n, _) => IntegerIs(n);
    case DoubleValue(_) =>
    case StringValue(s) => QuotedIs(s, rest);
    case ArrayValue(vs) => ArrayIs(vs, lay, depth, rest);
    case ObjectValue(ms) => ObjectIs(ms, lay, depth, rest);
  }

  lemma Enclosed(open: bytes, a: bytes, inside: bytes, b: bytes, close: bytes, rest: bytes)
    ensures open + (a + (inside + (b + (close + rest)))) == open + a + inside + b + close + rest
  {
  }

  lemma {:induction false} ArrayIs(vs: seq<Value>, lay: Layout, depth: nat, rest: bytes)
    ensures TextThen(ArrayValue(vs), lay, depth, rest) == Printed(ArrayValue(vs), lay, depth) + rest
    decreases vs, 1
  {
    if vs != [] {
      var tail := Gap(lay, depth) + ([RBRACKET] + rest);
      var first := TextThen(vs[0], lay, depth + 1, ElementsThen(vs[1..], lay, depth + 1, false, tail));
      assert TextThen(ArrayValue(vs), lay, depth, rest) == [LBRACKET] + (Gap(lay, depth + 1) + first);
      ElementsAre(vs, lay, depth + 1, tail);
      hide Gap, NewLine, Elements, ElementsThen, TextThen;
      GapIs(lay, depth);
      GapIs(lay, depth + 1);
      Enclosed([LBRACKET], Gap(lay, depth + 1), Elements(vs, lay, depth + 1), Gap(lay, depth), [RBRACKET], rest);
      assert [LBRACKET] == Ascii("[") && [RBRACKET] == Ascii("]");
    }
  }

  lemma {:induction false} ElementsAre(vs: seq<Value>, lay: Layout, depth: nat, rest: bytes)
    requires vs != []
    ensures TextThen(vs[0], lay, depth, ElementsThen(vs[1..], lay, depth, false, rest))
         == Elements(vs, lay, depth) + rest
    decreases vs, 0
  {
    hide TextThen, Printed, Gap, Comma;
    TextIs(vs[0], lay, depth, ElementsThen(vs[1..], lay, depth, false, rest));
    if |vs| > 1 {
      ElementsAre(vs[1..], lay, depth, rest);
      assert vs[1..][1..] == vs[2..];
      MoreElements(vs, lay, depth, rest);
    }
  }

  /** The comma and what follows it. */
  lemma MoreElements(vs: seq<Value>, lay: Layout, depth: nat, rest: bytes)
    requires |vs| > 1
    requires ElementsThen(vs[1..], lay, depth, false, rest)
          == [COMMA] + (Gap(lay, depth) + (Elements(vs[1..], lay, depth) + rest))
    ensures ElementsThen(vs[1..], lay, depth, false, rest) == Comma(lay, depth) + Elements(vs[1..], lay, depth) + rest
  {
    hide Elements, ElementsThen, Gap, Comma;
    GapIs(lay, depth);
    var more := Elements(vs[1..], lay, depth) + rest;
    assert [COMMA] + (Gap(lay, depth) + more) == [COMMA] + Gap(lay, depth) + more;
  }

  lemma {:induction false} ObjectIs(ms: seq<Member>, lay: Layout, depth: nat, rest: bytes)
    ensures TextThen(ObjectValue(ms), lay, depth, rest) == Printed(ObjectValue(ms), lay, depth) + rest
    decreases ms, 1
  {
    if ms != [] {
      var tail := Gap(lay, depth) + ([RBRACE] + rest);
      var first := QuotedThen(ms[0].name, ColonThen(lay,
                     TextThen(ms[0].value, lay, depth + 1, MembersThen(ms[1..], lay, depth + 1, false, tail))));
      assert TextThen(ObjectValue(ms), lay, depth, rest) == [LBRACE] + (Gap(lay, depth + 1) + first);
      MembersAre(ms, lay, depth + 1, tail);
      hide Gap, NewLine, Members, MembersThen, TextThen, QuotedThen, ColonThen;
      GapIs(lay, depth);
      GapIs(lay, depth + 1);
      Enclosed([LBRACE], Gap(lay, depth + 1), Members(ms, lay, depth + 1), Gap(lay, depth), [RBRACE], rest);
      assert [LBRACE] == Ascii("{") && [RBRACE] == Ascii("}");
    }
  }

  lemma {:induction false} MembersAre(ms: seq<Member>, lay: Layout, depth: nat, rest: bytes)
    requires ms != []
    ensures QuotedThen(ms[0].name, ColonThen(lay,
              TextThen(ms[0].value, lay, depth, MembersThen(ms[1..], lay, depth, false, rest))))
         == Members(ms, lay, depth) + rest
    decreases ms, 0
  {
    hide TextThen, Printed, Gap, Comma, ColonThen, Colon, ColonGap, Quoted, QuotedThen;
    var tail := MembersThen(ms[1..], lay, depth, false, rest);
    TextIs(ms[0].value, lay, depth, tail);
    MemberIs(ms[0].name, Printed(ms[0].value, lay, depth), lay, tail);
    if |ms| > 1 {
      MembersAre(ms[1..], lay, depth, rest);
      assert ms[1..][1..] == ms[2..];
      GapIs(lay, depth);
      MoreMembers(ms, lay, depth, rest);
    }
  }

  /** The comma and what follows it. */
  lemma MoreMembers(ms: seq<Member>, lay: Layout, depth: nat, rest: bytes)
    requires |ms| > 1
    requires MembersThen(ms[1..], lay, depth, false, rest)
          == [COMMA] + (Gap(lay, depth) + (Members(ms[1..], lay, depth) + rest))
    ensures MembersThen(ms[1..], lay, depth, false, rest) == Comma(lay, depth) + Members(ms[1..], lay, depth) + rest
  {
    hide Members, MembersThen, Gap, Comma;
    GapIs(lay, depth);
    var more := Members(ms[1..], lay, depth) + rest;
    assert [COMMA] + (Gap(lay, depth) + more) == [COMMA] + Gap(lay, depth) + more;
  }

  /** A name, the colon and the value. */
  lemma MemberIs(name: bytes, value: bytes, lay: Layout, tail: bytes)
    ensures QuotedThen(name, ColonThen(lay, value + tail)) == Quoted(name) + Colon(lay) + value + tail
  {
    hide Quoted, QuotedThen, ColonGap, Colon;
    GapIs(lay, 0);
    QuotedIs(name, ColonThen(lay, value + tail));
    assert [COLON] + (ColonGap(lay) + (value + tail)) == [COLON] + ColonGap(lay) + value + tail;
  }

  /** Writer's text, and PrettyWriter's. */
  lemma DocumentIs(v: Value, lay: Layout)
    ensures Text(v, lay) == Printed(v, lay, 0)
  {
    TextIs(v, lay, 0, []);
    assert Printed(v, lay, 0) + [] == Printed(v, lay, 0);
  }

  // ---------------------------------------------------------------- what the reader takes the characters for

  function LowerHex(): string { "0123456789abcdef" }

  /** The characters with a meaning of their own. */
  lemma Characters()
    ensures [LBRACKET, RBRACKET, LBRACE, RBRACE, COMMA, COLON, QUOTE, BACKSLASH] == Ascii("[]{},:\"\\")
    ensures [MINUS, PLUS, DOT, LOWER_U] == Ascii("-+.u")
    ensures [LOWER_N] + ULL == Ascii("null") && [LOWER_T] + RUE == Ascii("true") && [LOWER_F] + ALSE == Ascii("false")
    ensures forall c: byte :: IsSpace(c) <==>
              c == ' ' as int || c == '\t' as int || c == '\n' as int || c == '\r' as int
    ensures forall c: byte :: IsE(c) <==> c == 'e' as int || c == 'E' as int
    ensures forall c: byte :: IsDigit(c) <==> '0' as int <= c <= '9' as int
  {
  }

  /** A hexadecimal digit of either case. */
  lemma HexMeans(c: byte, v: nat)
    requires v < 16
    ensures HexDigit(c) == v <==> c == LowerHex()[v] as int || c == HexDigits()[v] as int
  {
    HexIs(v);
    assert LowerHex()
        == seq(16, (i: int) requires 0 <= i < 16 => if i < 10 then (48 + i) as char else (87 + i) as char);
  }

  lemma ShortMeans(c: byte)
    ensures ShortEscape(c)
         == if c == '"' as int || c == '\\' as int || c == '/' as int then c
            else if c == 'b' as int then 8
            else if c == 'f' as int then 12
            else if c == 'n' as int then 10
            else if c == 'r' as int then 13
            else if c == 't' as int then 9
            else 0
  {
  }

  /** Two escaped code units stand for the character that UTF-16 (RFC 2781, section 2.1) writes that way. */
  lemma PairMeans(cp: nat, high: nat, low: nat)
    requires 0x10000 <= cp <= 0x10FFFF
    requires high == 0xD800 + (cp - 0x10000) / 0x400 && low == 0xDC00 + (cp - 0x10000) % 0x400
    ensures 0xD800 <= high <= 0xDBFF && 0xDC00 <= low <= 0xDFFF && SurrogatePair(high, low) == cp
  {
  }

  /** Which chars a string may have. */
  lemma CharAllowed(x: Char)
    ensures CharOk(x) <==>
              match x
              case Raw(c) => c >= 32 && c != '"' as int && c != '\\' as int
              case Short(c) => exists k | 0 <= k < 8 :: c == Ascii("\"\\/bfnrt")[k]
              case Code(d) => IsHex4(d) && !(0xD800 <= HexValue(d) <= 0xDBFF)
              case Pair(a, b) =>
                IsHex4(a) && 0xD800 <= HexValue(a) <= 0xDBFF && IsHex4(b) && 0xDC00 <= HexValue(b) <= 0xDFFF
    ensures forall d :: IsHex4(d) <==>
              |d| == 4 && forall k | 0 <= k < 4 :: '0' as int <= d[k] <= '9' as int || 'a' as int <= d[k] <= 'f' as int
                                                   || 'A' as int <= d[k] <= 'F' as int
  {
    if x.Short? {
      var all := Ascii("\"\\/bfnrt");
      assert all[0] == 34 && all[1] == 92 && all[2] == 47 && all[3] == 98 && all[4] == 102 && all[5] == 110
          && all[6] == 114 && all[7] == 116;
    }
    hide HexValue;
  }

  /** What a char of a string stands for. */
  lemma CharMeans(x: Char, cp: nat)
    requires CharOk(x)
    ensures match x
            case Raw(c) => c >= 32 && c != '"' as int && c != '\\' as int && CharBytes(x) == [c]
            case Short(c) => c in Ascii("\"\\/bfnrt") && CharBytes(x) == [ShortEscape(c)]
            case Code(d) => HexValue(d) == cp ==> CharBytes(x) == Utf8.Encode(cp)
            case Pair(a, b) =>
              0x10000 <= cp <= 0x10FFFF
              && HexValue(a) == 0xD800 + (cp - 0x10000) / 0x400 && HexValue(b) == 0xDC00 + (cp - 0x10000) % 0x400
              ==> CharBytes(x) == Utf8.Encode(cp)
  {
    match x
    case Raw(_) =>
    case Short(c) =>
      var all := Ascii("\"\\/bfnrt");
      assert all[0] == 34 && all[1] == 92 && all[2] == 47 && all[3] == 98 && all[4] == 102 && all[5] == 110
          && all[6] == 114 && all[7] == 116;
    case Code(_) =>
    case Pair(a, b) =>
      if 0x10000 <= cp <= 0x10FFFF && HexValue(a) == 0xD800 + (cp - 0x10000) / 0x400
         && HexValue(b) == 0xDC00 + (cp - 0x10000) % 0x400 {
        PairMeans(cp, HexValue(a), HexValue(b));
      }
  }

  predicate AllDecimal(s: bytes) {
    forall k | 0 <= k < |s| :: '0' as int <= s[k] <= '9' as int
  }

  /** A number has no leading zeros, and digits where there must be some. */
  lemma NumberMeans(n: Number)
    ensures NumberOk(n) <==>
              && n.whole != [] && (|n.whole| > 1 ==> n.whole[0] != '0' as int) && AllDecimal(n.whole)
              && AllDecimal(n.frac)
              && (n.exp.Exp? ==>
                    && (n.exp.e == 'e' as int || n.exp.e == 'E' as int)
                    && (n.exp.sign == [] || n.exp.sign == Ascii("+") || n.exp.sign == Ascii("-"))
                    && n.exp.digits != [] && AllDecimal(n.exp.digits))
  {
    assert [MINUS] == Ascii("-") && [PLUS] == Ascii("+");
  }

  /** And neither its integer part nor a positive exponent goes beyond a double, 1.7976931348623157e308. */
  lemma NumberLimit(n: Number)
    requires NumberOk(n)
    ensures NumberFits(n) <==>
              && ValueOf(n.whole) < 17976931348623157 * Pow10(292)
              && (n.exp.Exp? && n.exp.sign != Ascii("-") ==> ValueOf(n.exp.digits) <= 308)
  {
    hide ValueOf;
    assert [MINUS] == Ascii("-");
    assert Pow10(292) == 10 * Pow10(291);
    hide Pow10;
  }

  lemma ExpText(x: Exp)
    ensures ExpThen(x, []) == if x.NoExp? then [] else [x.e] + x.sign + x.digits
  {
    if x.Exp? {
      assert x.digits + [] == x.digits;
    }
  }

  lemma FracText(frac: bytes, rest: bytes)
    ensures FracThen(frac, rest) == (if frac == [] then [] else Ascii(".") + frac) + rest
  {
    assert [DOT] == Ascii(".");
  }

  /** Its sign, integer part, fraction and exponent, one after the other. */
  lemma NumberText(n: Number)
    ensures NumberThen(n, [])
         == (if n.minus then Ascii("-") else []) + n.whole + (if n.frac == [] then [] else Ascii(".") + n.frac)
            + (if n.exp.NoExp? then [] else [n.exp.e] + n.exp.sign + n.exp.digits)
  {
    ExpText(n.exp);
    FracText(n.frac, ExpThen(n.exp, []));
    assert [MINUS] == Ascii("-");
    hide Ascii, ExpThen, FracThen;
    Four(if n.minus then [MINUS] else [], n.whole, if n.frac == [] then [] else Ascii(".") + n.frac, ExpThen(n.exp, []));
  }

  lemma Four(a: bytes, b: bytes, c: bytes, d: bytes)
    ensures a + (b + (c + d)) == a + b + c + d
    ensures a == [] ==> b + (c + d) == a + b + c + d
  {
  }
}
