/** Base64 (section 4 of RFC 4648): the encoder and the decoder, each a loop over a small buffer. */
module Base64 {
  import opened Bytes

  const PLUS: byte := 43
  const EQUALS: byte := 61

  /** base64_chars. */
  function Char(v: nat): (c: byte)
    requires v < 64
    ensures IsBase64(c) && c != EQUALS
  {
    if v < 26 then 65 + v else if v < 52 then 97 + (v - 26) else if v < 62 then ZERO + (v - 52)
    else if v == 62 then PLUS else SLASH
  }

  predicate IsBase64(c: byte) {
    c == PLUS || 47 <= c <= 57 || 65 <= c <= 90 || 97 <= c <= 122
  }

  /** base64_chars.find, cut to a byte: npos becomes 255. */
  function Find(c: byte): byte {
    if 65 <= c <= 90 then c - 65 else if 97 <= c <= 122 then c - 71 else if IsDigit(c) then c + 4
    else if c == PLUS then 62 else if c == SLASH then 63 else 255
  }

  lemma FindChar(v: nat)
    requires v < 64
    ensures Find(Char(v)) == v
  {
  }

  // ---------------------------------------------------------------- groups

  // The shifts and masks that cut three bytes into four values of six bits, and put them together again
  // in unsigned chars.

  function Cut0(a: byte): (v: nat)
    ensures v < 64
  {
    a / 4
  }

  function Cut1(a: byte, b: byte): (v: nat)
    ensures v < 64
  {
    a % 4 * 16 + b / 16
  }

  function Cut2(b: byte, c: byte): (v: nat)
    ensures v < 64
  {
    b % 16 * 4 + c / 64
  }

  function Cut3(c: byte): (v: nat)
    ensures v < 64
  {
    c % 64
  }

  function Join0(v0: byte, v1: byte): byte {
    (v0 * 4 + v1 / 16 % 4) % 256
  }

  function Join1(v1: byte, v2: byte): byte {
    (v1 % 16 * 16 + v2 / 4 % 16) % 256
  }

  function Join2(v2: byte, v3: byte): byte {
    (v2 % 4 * 64 + v3) % 256
  }

  lemma JoinsCuts(a: byte, b: byte, c: byte)
    ensures Join0(Cut0(a), Cut1(a, b)) == a
    ensures Join1(Cut1(a, b), Cut2(b, c)) == b
    ensures Join2(Cut2(b, c), Cut3(c)) == c
  {
    SixBits(a, b);
    FourBits(a % 4, b, c);
    TwoBits(b % 16, c);
  }

  function Split(a: byte, b: byte, c: byte): (v: seq<nat>)
    ensures |v| == 4 && forall i | 0 <= i < 4 :: v[i] < 64
  {
    [Cut0(a), Cut1(a, b), Cut2(b, c), Cut3(c)]
  }

  function Chars(v: seq<nat>): (s: bytes)
    requires forall i | 0 <= i < |v| :: v[i] < 64
    ensures |s| == |v|
    ensures forall i | 0 <= i < |s| :: IsBase64(s[i]) && s[i] != EQUALS
  {
    seq(|v|, i requires 0 <= i < |v| => Char(v[i]))
  }

  function Join(v0: byte, v1: byte, v2: byte, v3: byte): (s: bytes)
    ensures |s| == 3
  {
    [Join0(v0, v1), Join1(v1, v2), Join2(v2, v3)]
  }

  lemma SixBits(a: nat, b: nat)
    requires a < 256 && b < 256
    ensures (a / 4 * 4 + (a % 4 * 16 + b / 16) / 16 % 4) % 256 == a
  {
    var q, r := a % 4, b / 16;
    assert (q * 16 + r) / 16 == q;
  }

  lemma FourBits(a: nat, b: nat, c: nat)
    requires a < 4 && b < 256 && c < 256
    ensures ((a * 16 + b / 16) % 16 * 16 + (b % 16 * 4 + c / 64) / 4 % 16) % 256 == b
  {
    var q, r := b % 16, c / 64;
    assert (q * 4 + r) / 4 == q;
    assert (a * 16 + b / 16) % 16 == b / 16;
  }

  lemma TwoBits(b: nat, c: nat)
    requires b < 16 && c < 256
    ensures ((b * 4 + c / 64) % 4 * 64 + c % 64) % 256 == c
  {
    assert (b * 4 + c / 64) % 4 == c / 64;
  }

  lemma JoinSplit(a: byte, b: byte, c: byte, x: byte, y: byte)
    ensures var v := Split(a, b, c);
            Join(v[0], v[1], v[2], v[3]) == [a, b, c] && Join(v[0], v[1], x, y)[0] == a
            && Join(v[0], v[1], v[2], y)[1] == b
  {
    JoinsCuts(a, b, c);
    hide Cut0, Cut1, Cut2, Cut3, Join0, Join1, Join2;
  }

  /** Up to three bytes, the missing ones as zeros, as their characters and the padding. */
  function Group(s: bytes): (r: bytes)
    requires 1 <= |s| <= 3
    ensures |r| == 4
  {
    var v := Split(s[0], Peek(s, 1), Peek(s, 2));
    Chars(v[..|s| + 1]) + seq(3 - |s|, _ => EQUALS)
  }

  /** The bytes that two to four characters hold. */
  function Ungroup(r: bytes): (s: bytes)
    requires 1 <= |r| <= 4
    ensures |s| == |r| - 1
  {
    Join(Find(r[0]), Find(Peek(r, 1)), Find(Peek(r, 2)), Find(Peek(r, 3)))[..|r| - 1]
  }

  /** The characters of a group, and its padding. */
  lemma GroupParts(s: bytes)
    requires 1 <= |s| <= 3
    ensures Group(s) == Chars(Split(s[0], Peek(s, 1), Peek(s, 2))[..|s| + 1]) + seq(3 - |s|, _ => EQUALS)
    ensures Group(s)[..|s| + 1] == Chars(Split(s[0], Peek(s, 1), Peek(s, 2))[..|s| + 1])
    ensures |s| == 3 ==> Group(s) == Chars(Split(s[0], s[1], s[2]))
  {
    var v := Split(s[0], Peek(s, 1), Peek(s, 2));
    hide Split, Chars;
    if |s| == 3 {
      assert v[..4] == v && seq(0, _ => EQUALS) == [];
      assert Chars(v) + [] == Chars(v);
    }
  }

  lemma UngroupGroup(s: bytes)
    requires 1 <= |s| <= 3
    ensures Ungroup(Group(s)[..|s| + 1]) == s
  {
    hide Join, Split, Find, Char, Group, Chars, IsBase64;
    var a, b, c := s[0], Peek(s, 1), Peek(s, 2);
    var v := Split(a, b, c);
    var r := Group(s)[..|s| + 1];
    GroupParts(s);
    CharsAt(v, |s| + 1);
    var x, y := Find(Peek(r, 2)), Find(Peek(r, 3));
    var joined := Join(Find(r[0]), Find(r[1]), x, y);
    JoinSplit(a, b, c, x, y);
    assert Ungroup(r) == joined[..|s|];
    assert joined[0] == a && (|s| > 1 ==> joined[1] == b) && (|s| > 2 ==> joined[2] == c);
  }

  lemma CharsAt(v: seq<nat>, n: nat)
    requires n <= |v| && forall i | 0 <= i < |v| :: v[i] < 64
    ensures forall i | 0 <= i < n :: Find(Chars(v[..n])[i]) == v[i]
  {
    forall i | 0 <= i < n ensures Find(Chars(v[..n])[i]) == v[i] {
      FindChar(v[i]);
    }
  }

  // ---------------------------------------------------------------- whole strings

  function Encode(s: bytes): bytes {
    if s == [] then [] else if |s| <= 3 then Group(s) else Group(s[..3]) + Encode(s[3..])
  }

  /** What the decoder reads: up to the first = or character outside the alphabet. */
  function Readable(t: bytes): (r: bytes)
    ensures |r| <= |t| && r == t[..|r|]
  {
    if t == [] || t[0] == EQUALS || !IsBase64(t[0]) then [] else [t[0]] + Readable(t[1..])
  }

  function DecodeAll(r: bytes): bytes {
    if r == [] then [] else if |r| <= 4 then Ungroup(r) else Ungroup(r[..4]) + DecodeAll(r[4..])
  }

  function Decode(t: bytes): bytes {
    DecodeAll(Readable(t))
  }

  lemma {:induction false} ReadableConcat(a: bytes, b: bytes)
    requires forall i | 0 <= i < |a| :: IsBase64(a[i]) && a[i] != EQUALS
    ensures Readable(a + b) == a + Readable(b)
  {
    if a == [] {
      assert a + b == b;
    } else {
      ReadableConcat(a[1..], b);
      assert (a + b)[1..] == a[1..] + b;
    }
  }

  /** The characters of a group are read, its padding is not. */
  lemma GroupReadable(s: bytes, rest: bytes)
    requires 1 <= |s| <= 3
    ensures |s| < 3 ==> Readable(Group(s) + rest) == Group(s)[..|s| + 1]
    ensures |s| == 3 ==> Readable(Group(s) + rest) == Group(s) + Readable(rest)
  {
    var v := Split(s[0], Peek(s, 1), Peek(s, 2));
    var chars, padding := Chars(v[..|s| + 1]), seq(3 - |s|, _ => EQUALS);
    hide Split, Chars;
    ReadableConcat(chars, padding + rest);
    assert Group(s) + rest == chars + (padding + rest);
    if |s| == 3 {
      assert padding + rest == rest;
    }
  }

  /** Decoding undoes encoding. */
  lemma {:induction false} DecodeInvertsEncode(s: bytes)
    ensures Decode(Encode(s)) == s
    decreases |s|
  {
    hide Group, Ungroup;
    if s == [] {
    } else if |s| <= 3 {
      GroupReadable(s, []);
      assert Group(s) + [] == Group(s);
      UngroupGroup(s);
      assert Group(s)[..4] == Group(s);
    } else {
      var first, rest := s[..3], s[3..];
      DecodeInvertsEncode(rest);
      GroupReadable(first, Encode(rest));
      UngroupGroup(first);
      assert Group(first)[..4] == Group(first);
      var r := Group(first) + Readable(Encode(rest));
      assert r[..4] == Group(first) && r[4..] == Readable(Encode(rest));
      RestReadable(rest);
      assert first + rest == s;
    }
  }

  lemma RestReadable(s: bytes)
    requires s != []
    ensures Readable(Encode(s)) != []
  {
    var first := if |s| <= 3 then s else s[..3];
    assert Encode(s) == Group(first) + (if |s| <= 3 then [] else Encode(s[3..])) by {
      assert Group(first) + [] == Group(first);
    }
    GroupReadable(first, if |s| <= 3 then [] else Encode(s[3..]));
  }

  /** Four thirds of n, rounded up to whole groups. */
  function EncodedLength(n: nat): nat {
    4 * ((n + 2) / 3)
  }

  /** The bytes missing from the last group. */
  function Missing(n: nat): nat {
    (3 - n % 3) % 3
  }

  lemma OneGroupMore(n: nat)
    requires n > 3
    ensures EncodedLength(n) == 4 + EncodedLength(n - 3) && Missing(n) == Missing(n - 3)
  {
  }

  /** The alphabet fills the encoding but for the padding at its end: as many = as bytes are missing. */
  lemma {:induction false} EncodeShape(s: bytes)
    ensures |Encode(s)| == EncodedLength(|s|)
    ensures forall i | 0 <= i < |Encode(s)| ::
              if i < |Encode(s)| - Missing(|s|) then IsBase64(Encode(s)[i]) && Encode(s)[i] != EQUALS
              else Encode(s)[i] == EQUALS
    decreases |s|
  {
    hide Split, Chars, IsBase64, Group;
    if s == [] {
    } else if |s| <= 3 {
      GroupParts(s);
    } else {
      OneGroupMore(|s|);
      hide EncodedLength, Missing;
      GroupParts(s[..3]);
      EncodeShape(s[3..]);
    }
  }

  // ---------------------------------------------------------------- the encoding loop

  lemma EncodeStep(s: bytes)
    requires |s| >= 3
    ensures Encode(s) == Group(s[..3]) + Encode(s[3..])
    ensures Group(s[..3]) == Chars(Split(s[0], s[1], s[2]))
  {
    hide Split, Chars, Group;
    GroupParts(s[..3]);
    if |s| == 3 {
      assert s[..3] == s && Group(s) + [] == Group(s);
    }
  }

  /** The text so far and the encoding of the rest make up the encoding: one group further. */
  lemma EncodeTurn(input: bytes, p: nat, ret: bytes, chars: bytes)
    requires 3 <= p <= |input| && ret + Encode(input[p - 3..]) == Encode(input)
    requires chars == Chars(Split(input[p - 3], input[p - 2], input[p - 1]))
    ensures ret + chars + Encode(input[p..]) == Encode(input)
  {
    hide Encode, Group, Split, Chars;
    var rest := input[p - 3..];
    EncodeStep(rest);
    assert rest[3..] == input[p..];
    assert ret + (chars + Encode(input[p..])) == ret + chars + Encode(input[p..]);
  }

  /** base64_encode: three bytes are collected, then written as four characters. */
  method Base64Encode(input: bytes) returns (ret: bytes)
    ensures ret == Encode(input)
  {
    hide Encode, Group, Split, Chars, Char;
    ret := [];
    var a3 := new byte[3];
    var i, p := 0, 0;
    assert input[0..] == input && [] + Encode(input) == Encode(input);
    while p < |input|
      invariant 0 <= i < 3 && i <= p <= |input|
      invariant forall k | 0 <= k < i :: a3[k] == input[p - i + k]
      invariant ret + Encode(input[p - i..]) == Encode(input)
    {
      a3[i] := input[p];
      i, p := i + 1, p + 1;
      if i == 3 {
        var chars := WriteGroup(a3[0], a3[1], a3[2]);
        EncodeTurn(input, p, ret, chars);
        ret := ret + chars;
        i := 0;
      }
    }
    if i > 0 {
      var last := EncodeLast(a3, i, input[p - i..]);
      ret := ret + last;
    } else {
      assert input[p..] == [] && ret + [] == ret;
      EncodeNothing();
    }
  }

  method WriteGroup(b0: byte, b1: byte, b2: byte) returns (chars: bytes)
    ensures chars == Chars(Split(b0, b1, b2))
  {
    hide Split, Chars;
    var v := Split(b0, b1, b2);
    assert v[..4] == v;
    chars := WriteChars(v, 4);
  }

  /** What is left over, one or two bytes: filled up with zeros, and the missing characters with =. */
  method EncodeLast(a3: array<byte>, i: nat, ghost rest: bytes) returns (s: bytes)
    requires a3.Length == 3 && 0 < i < 3 && |rest| == i && forall k | 0 <= k < i :: a3[k] == rest[k]
    modifies a3
    ensures s == Encode(rest)
  {
    hide Encode, Group, Split, Chars, Char;
    var j := i;
    while j < 3
      invariant i <= j <= 3 && (forall k | 0 <= k < i :: a3[k] == rest[k]) && forall k | i <= k < j :: a3[k] == NUL
    {
      a3[j] := NUL;
      j := j + 1;
    }
    var chars := WriteChars(Split(a3[0], a3[1], a3[2]), i + 1);
    LastGroup(rest, chars);
    s := chars;
    assert chars + seq(0, _ => EQUALS) == chars;
    var n := i;
    while n < 3
      invariant i <= n <= 3 && s == chars + seq(n - i, _ => EQUALS)
    {
      s := s + [EQUALS];
      n := n + 1;
    }
  }

  lemma EncodeNothing()
    ensures Encode([]) == []
  {
  }

  lemma LastGroup(s: bytes, chars: bytes)
    requires 1 <= |s| < 3 && chars == Chars(Split(s[0], Peek(s, 1), Peek(s, 2))[..|s| + 1])
    ensures Encode(s) == chars + seq(3 - |s|, _ => EQUALS)
  {
    hide Split, Chars;
  }

  /** The first n characters of a group. */
  method WriteChars(v: seq<nat>, n: nat) returns (s: bytes)
    requires |v| == 4 && n <= 4 && forall i | 0 <= i < 4 :: v[i] < 64
    ensures s == Chars(v[..n])
  {
    hide Char;
    s := [];
    var j := 0;
    while j < n
      invariant 0 <= j <= n && s == Chars(v[..j])
    {
      s := s + [Char(v[j])];
      j := j + 1;
    }
  }

  // ---------------------------------------------------------------- the decoding loop

  lemma DecodeStep(r: bytes)
    requires |r| >= 4
    ensures DecodeAll(r) == Ungroup(r[..4]) + DecodeAll(r[4..])
  {
    hide Ungroup;
    if |r| == 4 {
      assert r[..4] == r && Ungroup(r) + [] == Ungroup(r);
    }
  }

  lemma ReadableStep(t: bytes, p: nat)
    requires p <= |t|
    ensures Readable(t[p..])
         == if p < |t| && t[p] != EQUALS && IsBase64(t[p]) then [t[p]] + Readable(t[p + 1..]) else []
  {
    if p < |t| {
      assert t[p..][1..] == t[p + 1..];
    }
  }

  /** The characters collected, before those still to be read, one more read. */
  lemma CollectMore(a: bytes, c: byte, b: bytes, rest: bytes)
    requires b == a + [c]
    ensures a + ([c] + rest) == b + rest
  {
  }

  /** The bytes so far and the decoding of the rest make up the decoding: one group further. */
  lemma DecodeTurn(ret: bytes, four: bytes, rest: bytes, whole: bytes)
    requires |four| == 4 && ret + DecodeAll(four + rest) == whole
    ensures ret + Ungroup(four) + DecodeAll(rest) == whole
    ensures Ungroup(four) == Join(Find(four[0]), Find(four[1]), Find(four[2]), Find(four[3]))
  {
    hide DecodeAll, Ungroup, Join, Find;
    var r := four + rest;
    DecodeStep(r);
    assert r[..4] == four && r[4..] == rest;
    Ungrouped(four);
    assert ret + (Ungroup(four) + DecodeAll(rest)) == ret + Ungroup(four) + DecodeAll(rest);
    FullGroup(four);
  }

  lemma FullGroup(four: bytes)
    requires |four| == 4
    ensures Ungroup(four) == Join(Find(four[0]), Find(four[1]), Find(four[2]), Find(four[3]))
  {
    hide Join, Find;
    Ungrouped(four);
    var a3 := Join(Find(four[0]), Find(four[1]), Find(four[2]), Find(four[3]));
    assert a3[..3] == a3;
  }

  /** base64_decode: four characters are collected, then written as three bytes. */
  method Base64Decode(input: bytes) returns (ret: bytes)
    ensures ret == Decode(input)
  {
    hide DecodeAll, Ungroup, Readable, Join, Find;
    ret := [];
    var a4 := new byte[4];
    var i, p := 0, 0;
    assert input[0..] == input && [] + Readable(input) == Readable(input);
    while p < |input| && input[p] != EQUALS && IsBase64(input[p])
      invariant 0 <= i < 4 && i <= p <= |input|
      invariant ret + DecodeAll(a4[..i] + Readable(input[p..])) == Decode(input)
    {
      ReadableStep(input, p);
      ghost var before := a4[..i];
      a4[i] := input[p];
      i, p := i + 1, p + 1;
      assert a4[..i] == before + [input[p - 1]];
      CollectMore(before, input[p - 1], a4[..i], Readable(input[p..]));
      if i == 4 {
        DecodeTurn(ret, a4[..4], Readable(input[p..]), Decode(input));
        ret := ret + Join(Find(a4[0]), Find(a4[1]), Find(a4[2]), Find(a4[3]));
        i := 0;
        assert a4[..0] + Readable(input[p..]) == Readable(input[p..]);
      }
    }
    ReadableStep(input, p);
    assert a4[..i] + [] == a4[..i];
    if i > 0 {
      var last := DecodeLast(a4, i, a4[..i]);
      ret := ret + last;
    } else {
      assert ret + [] == ret;
      DecodeNothing();
    }
  }

  /** What is left over, up to three characters: filled up with zeros, and as many bytes as they tell. */
  method DecodeLast(a4: array<byte>, i: nat, ghost r: bytes) returns (s: bytes)
    requires a4.Length == 4 && 0 < i < 4 && r == a4[..i]
    modifies a4
    ensures s == DecodeAll(r)
  {
    hide DecodeAll, Ungroup, Join, Find;
    assert forall k | 0 <= k < i :: a4[k] == r[k];
    var j := i;
    while j < 4
      invariant i <= j <= 4 && (forall k | 0 <= k < i :: a4[k] == r[k]) && forall k | i <= k < j :: a4[k] == NUL
    {
      a4[j] := NUL;
      j := j + 1;
    }
    var a3 := Join(Find(a4[0]), Find(a4[1]), Find(a4[2]), Find(a4[3]));
    assert a4[0] == r[0] && a4[1] == Peek(r, 1) && a4[2] == Peek(r, 2) && a4[3] == Peek(r, 3);
    Ungrouped(r);
    s := a3[..i - 1];
  }

  lemma Ungrouped(r: bytes)
    requires 1 <= |r| <= 4
    ensures Ungroup(r) == Join(Find(r[0]), Find(Peek(r, 1)), Find(Peek(r, 2)), Find(Peek(r, 3)))[..|r| - 1]
    ensures DecodeAll(r) == Ungroup(r)
  {
  }

  lemma DecodeNothing()
    ensures DecodeAll([]) == []
  {
  }
}
