/** UTF-8 as section 4 of RFC 3629 has it, and UTF8::Encode, Decode and Validate. */
module Utf8 {
  import opened Bytes

  /** The bytes UTF8::Encode puts for a code point. */
  function Encode(cp: nat): (s: bytes)
    requires cp <= 0x10FFFF
    ensures 1 <= |s| <= 4
  {
    if cp <= 0x7F then [cp]
    else if cp <= 0x7FF then [0xC0 + cp / 64, 0x80 + cp % 64]
    else if cp <= 0xFFFF then [0xE0 + cp / 4096, 0x80 + cp / 64 % 64, 0x80 + cp % 64]
    else [0xF0 + cp / 262144, 0x80 + cp / 4096 % 64, 0x80 + cp / 64 % 64, 0x80 + cp % 64]
  }

  /** A Unicode scalar value: any code point but the surrogates. */
  type Scalar = cp: nat | cp < 0xD800 || 0xE000 <= cp <= 0x10FFFF

  /** A byte that carries six more bits. */
  predicate Continues(c: int) {
    0x80 <= c < 0xC0
  }

  /** The table of section 3 of RFC 3629: the bits of the code point in order, in the shortest form. */
  lemma EncodeCarries(cp: nat)
    requires cp <= 0x10FFFF
    ensures var s: seq<int> := Encode(cp);
            && (cp < 0x80 <==> |s| == 1) && (cp < 0x800 <==> |s| <= 2) && (cp < 0x10000 <==> |s| <= 3)
            && (forall i | 0 < i < |s| :: Continues(s[i]))
            && match |s|
               case 1 => cp == s[0] < 0x80
               case 2 => 0xC0 <= s[0] < 0xE0 && cp == (s[0] - 0xC0) * 64 + (s[1] - 0x80)
               case 3 => 0xE0 <= s[0] < 0xF0 && cp == ((s[0] - 0xE0) * 64 + (s[1] - 0x80)) * 64 + (s[2] - 0x80)
               case _ => 0xF0 <= s[0] < 0xF8
                         && cp == (((s[0] - 0xF0) * 64 + (s[1] - 0x80)) * 64 + (s[2] - 0x80)) * 64 + (s[3] - 0x80)
  {
    DivideTwice(cp);
  }

  function EncodeAll(cps: seq<Scalar>): bytes {
    if cps == [] then [] else Encode(cps[0]) + EncodeAll(cps[1..])
  }

  predicate EncodedAt(t: bytes, p: nat, cp: Scalar) {
    p + |Encode(cp)| <= |t| && t[p..p + |Encode(cp)|] == Encode(cp)
  }

  /** GetRange: the class of a byte, the continuation bytes in three disjoint bits. */
  function GetRange(c: byte): byte {
    if c < 0x80 then 0
    else if c < 0x90 then 0x10
    else if c < 0xA0 then 0x40
    else if c < 0xC0 then 0x20
    else if c < 0xC2 then 8
    else if c < 0xE0 then 2
    else if c == 0xE0 then 10
    else if c < 0xED then 3
    else if c == 0xED then 4
    else if c < 0xF0 then 3
    else if c == 0xF0 then 11
    else if c < 0xF4 then 6
    else if c == 0xF4 then 5
    else 8
  }

  /** (GetRange(c) & mask) != 0 for a mask made of the three bits. */
  predicate Allowed(c: byte, low: bool, middle: bool, high: bool) {
    (low && GetRange(c) == 0x10) || (middle && GetRange(c) == 0x40) || (high && GetRange(c) == 0x20)
  }

  /** 0xFF >> type, plus one. */
  function Room(kind: nat): (m: nat)
    ensures m > 0
  {
    if kind == 0 then 256 else if kind == 1 then 128 else if kind == 2 then 64 else if kind == 3 then 32
    else if kind == 4 then 16 else if kind == 5 then 8 else if kind == 6 then 4 else if kind == 7 then 2 else 1
  }

  /** One or more bytes read after the first: COPY and TRANS. */
  datatype Tail = Tail(next: nat, codepoint: nat, ok: bool)

  function Take(t: bytes, r: Tail, low: bool, middle: bool, high: bool): (r': Tail)
    ensures r'.next == r.next + 1
    ensures r'.ok ==> r.ok && 0x80 <= Peek(t, r.next) < 0xC0
  {
    var c := Peek(t, r.next);
    Tail(r.next + 1, r.codepoint * 64 + c % 64, r.ok && Allowed(c, low, middle, high))
  }

  /** The switch on the type of the first byte, at p. */
  function Switch(t: bytes, p: nat): (r: Tail)
    requires p < |t|
    ensures p < r.next <= p + 4
  {
    var kind := GetRange(t[p]);
    var r := Tail(p + 1, t[p] % Room(kind), true);
    match kind
    case 2 => Any(t, r)
    case 3 => Any(t, Any(t, r))
    case 4 => Any(t, Take(t, r, true, true, false))
    case 5 => Any(t, Any(t, Take(t, r, true, false, false)))
    case 6 => Any(t, Any(t, Any(t, r)))
    case 10 => Any(t, Take(t, r, false, false, true))
    case 11 => Any(t, Any(t, Take(t, r, false, true, true)))
    case _ => r.(ok := false)
  }

  /** TAIL: any continuation byte. */
  function Any(t: bytes, r: Tail): Tail {
    Take(t, r, true, true, true)
  }

  /** What UTF8::Decode makes of the bytes at p. */
  function DecodeAt(t: bytes, p: nat): (r: Tail)
    requires p < |t|
    ensures p < r.next <= p + 4
  {
    if t[p] < 0x80 then Tail(p + 1, t[p], true) else Switch(t, p)
  }

  /** UTF8::Decode: the code point at p, exactly if the bytes there encode a scalar value. */
  method Decode(t: bytes, p: nat) returns (ok: bool, codepoint: nat, next: nat)
    requires p < |t|
    ensures p < next <= p + 4 && Tail(next, codepoint, ok) == DecodeAt(t, p)
    ensures ok ==> Unicode(codepoint) && EncodedAt(t, p, codepoint) && next == p + |Encode(codepoint)|
    ensures !ok ==> forall cp: Scalar :: !EncodedAt(t, p, cp)
  {
    hide Encode, EncodedAt;
    codepoint, next := 0, p;
    var c := Peek(t, next);
    next := next + 1;
    if c < 0x80 {
      OneByte(t, p);
      return true, c, next;
    }
    var kind := GetRange(c);
    codepoint := c % Room(kind);
    var r := Tail(next, codepoint, true);
    match kind {
      case 2 =>
        r := Any(t, r);
      case 3 =>
        r := Any(t, r);
        r := Any(t, r);
      case 4 =>
        r := Take(t, r, true, true, false);
        r := Any(t, r);
      case 5 =>
        r := Take(t, r, true, false, false);
        r := Any(t, r);
        r := Any(t, r);
      case 6 =>
        r := Any(t, r);
        r := Any(t, r);
        r := Any(t, r);
      case 10 =>
        r := Take(t, r, false, false, true);
        r := Any(t, r);
      case 11 =>
        r := Take(t, r, false, true, true);
        r := Any(t, r);
        r := Any(t, r);
      case _ =>
        r := r.(ok := false);
    }
    ok, codepoint, next := r.ok, r.codepoint, r.next;
    DecodeAtIs(t, p);
  }

  /** UTF8::Validate's state: what was copied, and whether every byte was allowed. */
  datatype Check = Check(next: nat, out: bytes, ok: bool)

  /** The bytes the decoder reads from p to q; past the end it reads the terminator. */
  function Seen(t: bytes, p: nat, q: nat): bytes
    requires p <= q
  {
    if p == q then [] else Seen(t, p, q - 1) + [Peek(t, q - 1)]
  }

  lemma {:induction false} SeenIsThere(t: bytes, p: nat, q: nat)
    requires p <= q <= |t|
    ensures Seen(t, p, q) == t[p..q]
    decreases q
  {
    if p < q {
      SeenIsThere(t, p, q - 1);
      assert t[p..q] == t[p..q - 1] + [t[q - 1]];
    }
  }

  /** Where Decode stands at r, Validate stands at x. */
  predicate Mirrors(t: bytes, p: nat, x: Check, r: Tail) {
    p <= r.next == x.next && x.ok == r.ok && x.out == Seen(t, p, r.next)
  }

  /** COPY and TRANS. */
  method CopyByte(t: bytes, ghost p: nat, x: Check, ghost r: Tail, low: bool, middle: bool, high: bool)
      returns (y: Check)
    requires Mirrors(t, p, x, r)
    ensures Mirrors(t, p, y, Take(t, r, low, middle, high))
  {
    var c := Peek(t, x.next);
    y := Check(x.next + 1, x.out + [c], x.ok && Allowed(c, low, middle, high));
  }

  /** TAIL. */
  method CopyTail(t: bytes, ghost p: nat, x: Check, ghost r: Tail) returns (y: Check)
    requires Mirrors(t, p, x, r)
    ensures Mirrors(t, p, y, Any(t, r))
  {
    y := CopyByte(t, p, x, r, true, true, true);
  }

  /** UTF8::Validate: the same decision as Decode's by its own switch, copying the bytes it reads. */
  method Validate(t: bytes, p: nat) returns (ok: bool, out: bytes, next: nat)
    requires p < |t|
    ensures p < next <= p + 4 && ok == DecodeAt(t, p).ok && next == DecodeAt(t, p).next
    ensures out == Seen(t, p, next)
    ensures ok ==> exists cp: Scalar :: EncodedAt(t, p, cp) && out == Encode(cp)
    ensures !ok ==> forall cp: Scalar :: !EncodedAt(t, p, cp)
  {
    hide Encode, EncodedAt, Allowed, Take, Mirrors;
    var c := t[p];
    var x := Check(p + 1, [c], true);
    ghost var r := Tail(p + 1, c % Room(GetRange(c)), true);
    FirstSeen(t, p, r);
    if c >= 0x80 {
      match GetRange(c) {
        case 2 =>
          x := CopyTail(t, p, x, r);
        case 3 =>
          x := CopyTail(t, p, x, r);
          x := CopyTail(t, p, x, Any(t, r));
        case 4 =>
          x := CopyByte(t, p, x, r, true, true, false);
          x := CopyTail(t, p, x, Take(t, r, true, true, false));
        case 5 =>
          x := CopyByte(t, p, x, r, true, false, false);
          r := Take(t, r, true, false, false);
          x := CopyTail(t, p, x, r);
          x := CopyTail(t, p, x, Any(t, r));
        case 6 =>
          x := CopyTail(t, p, x, r);
          x := CopyTail(t, p, x, Any(t, r));
          x := CopyTail(t, p, x, Any(t, Any(t, r)));
        case 10 =>
          x := CopyByte(t, p, x, r, false, false, true);
          x := CopyTail(t, p, x, Take(t, r, false, false, true));
        case 11 =>
          x := CopyByte(t, p, x, r, false, true, true);
          r := Take(t, r, false, true, true);
          x := CopyTail(t, p, x, r);
          x := CopyTail(t, p, x, Any(t, r));
        case _ =>
          x := x.(ok := false);
      }
    }
    ok, out, next := x.ok, x.out, x.next;
    assert Mirrors(t, p, x, DecodeAt(t, p));
    MirrorsMeans(t, p, x, DecodeAt(t, p));
    DecodeAtIs(t, p);
    if ok {
      SeenIsEncoding(t, p, DecodeAt(t, p).codepoint);
    }
  }

  lemma MirrorsMeans(t: bytes, p: nat, x: Check, r: Tail)
    requires Mirrors(t, p, x, r)
    ensures p <= x.next == r.next && x.ok == r.ok && x.out == Seen(t, p, x.next)
  {
  }

  lemma SeenIsEncoding(t: bytes, p: nat, cp: Scalar)
    requires EncodedAt(t, p, cp)
    ensures Seen(t, p, p + |Encode(cp)|) == Encode(cp)
  {
    hide Encode;
    SeenIsThere(t, p, p + |Encode(cp)|);
  }

  lemma FirstSeen(t: bytes, p: nat, r: Tail)
    requires p < |t| && r.next == p + 1 && r.ok
    ensures Mirrors(t, p, Check(p + 1, [t[p]], true), r)
    ensures Mirrors(t, p, Check(p + 1, [t[p]], false), r.(ok := false))
  {
    assert Seen(t, p, p) == [];
  }

  predicate Unicode(cp: nat) {
    cp < 0xD800 || 0xE000 <= cp <= 0x10FFFF
  }

  lemma OneByte(t: bytes, p: nat)
    requires p < |t| && t[p] < 0x80
    ensures EncodedAt(t, p, t[p]) && |Encode(t[p])| == 1
  {
  }

  /** The result stands for the scalar value encoded at p. */
  predicate Right(t: bytes, p: nat, r: Tail) {
    Unicode(r.codepoint) && EncodedAt(t, p, r.codepoint) && r.next == p + |Encode(r.codepoint)|
  }

  /** What the switch accepts is the encoding of the code point it computes. */
  lemma SwitchDecodes(t: bytes, p: nat)
    requires p < |t| && t[p] >= 0x80
    ensures Switch(t, p).ok ==> Right(t, p, Switch(t, p))
  {
    hide Right, Take;
    if Switch(t, p).ok {
      match GetRange(t[p])
      case 2 => SwitchTwo(t, p);
      case 3 => SwitchThree(t, p);
      case 4 => SwitchThree(t, p);
      case 10 => SwitchThree(t, p);
      case _ => SwitchFour(t, p);
    }
  }

  /** Decoding finds the scalar value encoded at p, if there is one. */
  lemma DecodeAtIs(t: bytes, p: nat)
    requires p < |t|
    ensures DecodeAt(t, p).ok ==> Right(t, p, DecodeAt(t, p))
    ensures !DecodeAt(t, p).ok ==> forall cp: Scalar :: !EncodedAt(t, p, cp)
  {
    hide Encode, EncodedAt, Switch;
    if t[p] < 0x80 {
      OneByte(t, p);
    } else {
      SwitchDecodes(t, p);
      forall cp: Scalar | EncodedAt(t, p, cp) ensures Switch(t, p).ok {
        SwitchComplete(t, p, cp);
      }
    }
  }

  lemma SliceTwo(t: bytes, p: nat)
    requires p + 2 <= |t|
    ensures t[p..p + 2] == [t[p], t[p + 1]]
  {
  }

  lemma SliceThree(t: bytes, p: nat)
    requires p + 3 <= |t|
    ensures t[p..p + 3] == [t[p], t[p + 1], t[p + 2]]
  {
  }

  lemma SliceFour(t: bytes, p: nat)
    requires p + 4 <= |t|
    ensures t[p..p + 4] == [t[p], t[p + 1], t[p + 2], t[p + 3]]
  {
  }

  lemma SwitchTwo(t: bytes, p: nat)
    requires p < |t| && GetRange(t[p]) == 2 && Switch(t, p).ok
    ensures Right(t, p, Switch(t, p))
  {
    hide Encode;
    assert Peek(t, p + 1) >= 0x80;
    TwoBytes(t[p], t[p + 1]);
    SliceTwo(t, p);
  }

  lemma SwitchThree(t: bytes, p: nat)
    requires p < |t| && GetRange(t[p]) in {3, 4, 10} && Switch(t, p).ok
    ensures Right(t, p, Switch(t, p))
  {
    hide Encode;
    assert Peek(t, p + 1) >= 0x80 && Peek(t, p + 2) >= 0x80;
    ThreeBytes(t[p], t[p + 1], t[p + 2]);
    SliceThree(t, p);
  }

  lemma SwitchFour(t: bytes, p: nat)
    requires p < |t| && GetRange(t[p]) in {5, 6, 11} && Switch(t, p).ok
    ensures Right(t, p, Switch(t, p))
  {
    hide Encode;
    assert Peek(t, p + 1) >= 0x80 && Peek(t, p + 2) >= 0x80 && Peek(t, p + 3) >= 0x80;
    FourBytes(t[p], t[p + 1], t[p + 2], t[p + 3]);
    SliceFour(t, p);
  }

  /** Whatever is an encoding, it accepts. */
  lemma SwitchComplete(t: bytes, p: nat, cp: Scalar)
    requires p < |t| && t[p] >= 0x80 && EncodedAt(t, p, cp)
    ensures Switch(t, p).ok
  {
    var s := Encode(cp);
    LeadOf(cp);
    hide Encode;
    assert forall i | p <= i < p + |s| :: Peek(t, i) == t[p..p + |s|][i - p];
  }

  lemma TwoBytes(a: byte, b: byte)
    requires GetRange(a) == 2 && 0x80 <= b < 0xC0
    ensures var cp := a % 64 * 64 + b % 64; Unicode(cp) && Encode(cp) == [a, b]
  {
  }

  lemma SplitBits(m: nat, r: nat)
    requires r < 64
    ensures (m * 64 + r) / 64 == m && (m * 64 + r) % 64 == r
  {
  }

  lemma DivideTwice(z: nat)
    ensures z / 4096 == z / 64 / 64 && z / 262144 == z / 64 / 64 / 64
  {
  }

  /** The payload of a first byte of three or four. */
  lemma LeadBits(a: byte)
    ensures GetRange(a) in {3, 4, 10} ==> a % Room(GetRange(a)) == a - 0xE0
    ensures GetRange(a) in {5, 6, 11} ==> a % Room(GetRange(a)) == a - 0xF0
  {
  }

  lemma ContinuationBits(b: byte)
    requires 0x80 <= b < 0xC0
    ensures b % 64 == b - 0x80
  {
  }

  lemma JoinThree(l: nat, x: nat, y: nat)
    requires l < 16 && x < 64 && y < 64 && l * 64 + x >= 32
    ensures var cp := (l * 64 + x) * 64 + y; 0x800 <= cp <= 0xFFFF && Encode(cp) == [0xE0 + l, 0x80 + x, 0x80 + y]
  {
    var cp := (l * 64 + x) * 64 + y;
    SplitBits(l, x);
    SplitBits(l * 64 + x, y);
    DivideTwice(cp);
    assert cp / 4096 == l && cp / 64 % 64 == x && cp % 64 == y;
  }

  lemma JoinFour(l: nat, x: nat, y: nat, z: nat)
    requires l <= 4 && x < 64 && y < 64 && z < 64 && 16 <= l * 64 + x <= 271
    ensures var cp := ((l * 64 + x) * 64 + y) * 64 + z;
            0x10000 <= cp <= 0x10FFFF && Encode(cp) == [0xF0 + l, 0x80 + x, 0x80 + y, 0x80 + z]
  {
    var cp := ((l * 64 + x) * 64 + y) * 64 + z;
    SplitBits(l, x);
    SplitBits(l * 64 + x, y);
    SplitBits((l * 64 + x) * 64 + y, z);
    DivideTwice(cp);
    assert cp / 262144 == l && cp / 4096 % 64 == x && cp / 64 % 64 == y && cp % 64 == z;
  }

  lemma ThreeBytes(a: byte, b: byte, c: byte)
    requires 0x80 <= b < 0xC0 && 0x80 <= c < 0xC0
    requires (GetRange(a) == 3) || (GetRange(a) == 4 && b < 0xA0) || (GetRange(a) == 10 && b >= 0xA0)
    ensures var cp := (a % Room(GetRange(a)) * 64 + b % 64) * 64 + c % 64; Unicode(cp) && Encode(cp) == [a, b, c]
  {
    hide Encode, Room;
    LeadBits(a);
    ContinuationBits(b);
    ContinuationBits(c);
    JoinThree(a - 0xE0, b - 0x80, c - 0x80);
  }

  lemma FourBytes(a: byte, b: byte, c: byte, d: byte)
    requires 0x80 <= b < 0xC0 && 0x80 <= c < 0xC0 && 0x80 <= d < 0xC0
    requires (GetRange(a) == 6) || (GetRange(a) == 5 && b < 0x90) || (GetRange(a) == 11 && b >= 0x90)
    ensures var cp := ((a % Room(GetRange(a)) * 64 + b % 64) * 64 + c % 64) * 64 + d % 64;
            Unicode(cp) && Encode(cp) == [a, b, c, d]
  {
    hide Encode, Room;
    LeadBits(a);
    ContinuationBits(b);
    ContinuationBits(c);
    ContinuationBits(d);
    JoinFour(a - 0xF0, b - 0x80, c - 0x80, d - 0x80);
  }

  /** The bytes of an encoding are ones the table allows. */
  lemma LeadOf(cp: Scalar)
    ensures var s := Encode(cp);
            && (forall i | 0 < i < |s| :: 0x80 <= s[i] < 0xC0)
            && (|s| == 1 ==> s[0] < 0x80)
            && (|s| == 2 ==> GetRange(s[0]) == 2)
            && (|s| == 3 ==> GetRange(s[0]) == 3 || (GetRange(s[0]) == 4 && s[1] < 0xA0)
                             || (GetRange(s[0]) == 10 && s[1] >= 0xA0))
            && (|s| == 4 ==> GetRange(s[0]) == 6 || (GetRange(s[0]) == 5 && s[1] < 0x90)
                             || (GetRange(s[0]) == 11 && s[1] >= 0x90))
  {
  }
}
