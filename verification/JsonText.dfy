/** The text of a value, compact or pretty: what Writer and PrettyWriter are proved to put out. */
module JsonText {
  import opened Bytes
  import opened JsonGrammar
  import opened JsonDom

  /** Writer, or PrettyWriter with its indent character and count. */
  datatype Layout = Compact | Pretty(indentChar: byte, indentCount: nat)

  /** SetIndent asks for a white-space character. */
  predicate ValidLayout(lay: Layout) {
    lay.Pretty? ==> IsSpace(lay.indentChar)
  }

  function Repeat(c: byte, n: nat): (s: bytes)
    ensures |s| == n
  {
    seq(n, _ => c)
  }

  /** A line break and the indent of a nesting depth. */
  function Gap(lay: Layout, depth: nat): bytes {
    if lay.Compact? then [] else [LF] + Repeat(lay.indentChar, depth * lay.indentCount)
  }

  function ColonGap(lay: Layout): bytes {
    if lay.Compact? then [] else [SPACE]
  }

  const NULL_TEXT: bytes := [110, 117, 108, 108]
  const TRUE_TEXT: bytes := [116, 114, 117, 101]
  const FALSE_TEXT: bytes := [102, 97, 108, 115, 101]

  function Decimal(n: nat): (s: bytes)
    ensures |s| >= 1
    ensures forall k | 0 <= k < |s| :: IsDigit(s[k])
    ensures s[0] == ZERO ==> n == 0 && |s| == 1
  {
    if n < 10 then [ZERO + n] else Decimal(n / 10) + [ZERO + n % 10]
  }

  function IntegerText(n: int): bytes {
    if n < 0 then [MINUS] + Decimal(-n) else Decimal(n)
  }

  /** The writer's escape table: 0 for a byte copied as it is. */
  function EscapeCode(c: byte): byte {
    if c == 8 then 98
    else if c == 9 then 116
    else if c == 10 then 110
    else if c == 12 then 102
    else if c == 13 then 114
    else if c < 0x20 then LOWER_U
    else if c == QUOTE then QUOTE
    else if c == BACKSLASH then BACKSLASH
    else 0
  }

  /** hexDigits. */
  function HexChar(d: nat): byte
    requires d < 16
  {
    if d < 10 then ZERO + d else 55 + d
  }

  function EscapeByte(c: byte): (s: bytes)
    ensures 1 <= |s| <= 6
  {
    var e := EscapeCode(c);
    if e == 0 then [c]
    else if e == LOWER_U then [BACKSLASH, e, ZERO, ZERO, HexChar(c / 16), HexChar(c % 16)]
    else [BACKSLASH, e]
  }

  // Every text is written before the text that follows it, given as rest.

  function EscapedThen(s: bytes, rest: bytes): bytes {
    if s == [] then [QUOTE] + rest else EscapeByte(s[0]) + EscapedThen(s[1..], rest)
  }

  function QuotedThen(s: bytes, rest: bytes): bytes {
    [QUOTE] + EscapedThen(s, rest)
  }

  function TextThen(v: Value, lay: Layout, depth: nat, rest: bytes): bytes
    decreases v, 1
  {
    match v
    case NullValue => NULL_TEXT + rest
    case BoolValue(b) => (if b then TRUE_TEXT else FALSE_TEXT) + rest
    case NumberValue(n, _) => IntegerText(n) + rest
    case DoubleValue(literal) => literal + rest
    case StringValue(s) => QuotedThen(s, rest)
    case ArrayValue(vs) =>
      [LBRACKET] + ElementsThen(vs, lay, depth + 1, true, CloseThen(vs == [], lay, depth, RBRACKET, rest))
    case ObjectValue(ms) =>
      [LBRACE] + MembersThen(ms, lay, depth + 1, true, CloseThen(ms == [], lay, depth, RBRACE, rest))
  }

  /** A closing bracket, on a line of its own unless the container is empty. */
  function CloseThen(empty: bool, lay: Layout, depth: nat, close: byte, rest: bytes): bytes {
    if empty then [close] + rest else Gap(lay, depth) + ([close] + rest)
  }

  /** The comma before a value that is not the first, and the gap before any value. */
  function LeadThen(first: bool, lay: Layout, depth: nat, rest: bytes): bytes {
    if first then Gap(lay, depth) + rest else [COMMA] + (Gap(lay, depth) + rest)
  }

  function ElementsThen(vs: seq<Value>, lay: Layout, depth: nat, first: bool, rest: bytes): bytes
    decreases vs, 0
  {
    if vs == [] then rest
    else LeadThen(first, lay, depth, TextThen(vs[0], lay, depth, ElementsThen(vs[1..], lay, depth, false, rest)))
  }

  function MembersThen(ms: seq<Member>, lay: Layout, depth: nat, first: bool, rest: bytes): bytes
    decreases ms, 0
  {
    if ms == [] then rest
    else
      LeadThen(first, lay, depth,
        QuotedThen(ms[0].name, ColonThen(lay,
          TextThen(ms[0].value, lay, depth, MembersThen(ms[1..], lay, depth, false, rest)))))
  }

  function ColonThen(lay: Layout, rest: bytes): bytes {
    [COLON] + (ColonGap(lay) + rest)
  }

  /** The text of a value as a document. */
  function Text(v: Value, lay: Layout): bytes {
    TextThen(v, lay, 0, [])
  }

  predicate NoDoubles(v: Value) {
    match v
    case DoubleValue(_) => false
    case ArrayValue(vs) => forall i | 0 <= i < |vs| :: NoDoubles(vs[i])
    case ObjectValue(ms) => forall i | 0 <= i < |ms| :: NoDoubles(ms[i].value)
    case _ => true
  }

  /** Deep copy, printing and parsing are promised for these: canonical integers and no doubles. */
  predicate Printable(v: Value) {
    WellFormed(v) && NoDoubles(v)
  }
}
