/** Base64 against the text of section 4 of RFC 4648: its table of characters, and a group as one number of 24
    bits that is written in four digits to the base 64. */
module Base64Table {
  import opened Bytes
  import opened Base64

  const UPPER: string := "ABCDEFGHIJKLMNOPQRSTUVWXYZ"
  const LOWER: string := "abcdefghijklmnopqrstuvwxyz"
  const DIGITS: string := "0123456789"

  /** Table 1 of RFC 4648. */
  const TABLE: string := UPPER + LOWER + DIGITS + "+/"

  lemma Letters()
    ensures |UPPER| == 26 && forall i | 0 <= i < 26 :: UPPER[i] as int == 65 + i
    ensures |LOWER| == 26 && forall i | 0 <= i < 26 :: LOWER[i] as int == 97 + i
    ensures |DIGITS| == 10 && forall i | 0 <= i < 10 :: DIGITS[i] as int == 48 + i
  {
    assert UPPER == seq(26, (i: int) requires 0 <= i < 26 => (65 + i) as char);
    assert LOWER == seq(26, (i: int) requires 0 <= i < 26 => (97 + i) as char);
    assert DIGITS == seq(10, (i: int) requires 0 <= i < 10 => (48 + i) as char);
  }

  function Symbol(v: nat): (c: byte)
    requires v < 64
  {
    Letters();
    TABLE[v] as int
  }

  lemma TableHolds(v: nat)
    requires v < 64
    ensures Char(v) == Symbol(v)
  {
    Letters();
    hide UPPER, LOWER, DIGITS;
  }

  /** Group g of s, the bytes that are missing from it as zeros. */
  function Number24(s: bytes, g: nat): nat {
    Peek(s, 3 * g) * 65536 + Peek(s, 3 * g + 1) * 256 + Peek(s, 3 * g + 2)
  }

  /** Digit k of a number of 24 bits, the highest first. */
  function Digit64(n: nat, k: nat): (d: nat)
    requires k < 4
    ensures d < 64
  {
    (if k == 0 then n / 262144 else if k == 1 then n / 4096 else if k == 2 then n / 64 else n) % 64
  }

  lemma DigitsAddUp(n: nat)
    requires n < 0x100_0000
    ensures Digit64(n, 0) * 262144 + Digit64(n, 1) * 4096 + Digit64(n, 2) * 64 + Digit64(n, 3) == n
  {
  }

  lemma FirstDigit(a: byte, b: byte, c: byte)
    ensures (a * 65536 + b * 256 + c) / 262144 % 64 == Cut0(a)
  {
    assert a * 65536 + b * 256 + c == 262144 * (a / 4) + (a % 4 * 65536 + b * 256 + c);
  }

  lemma SecondDigit(a: byte, b: byte, c: byte)
    ensures (a * 65536 + b * 256 + c) / 4096 % 64 == Cut1(a, b)
  {
    assert a * 65536 + b * 256 + c == 4096 * (a * 16 + b / 16) + (b % 16 * 256 + c);
    assert (a * 65536 + b * 256 + c) / 4096 == a * 16 + b / 16;
    assert a * 16 + b / 16 == 64 * (a / 4) + (a % 4 * 16 + b / 16);
    Parts64(a / 4, a % 4 * 16 + b / 16);
  }

  lemma Parts64(high: nat, low: nat)
    requires low < 64
    ensures (64 * high + low) / 64 == high && (64 * high + low) % 64 == low
  {
  }

  lemma ThirdDigit(a: byte, b: byte, c: byte)
    ensures (a * 65536 + b * 256 + c) / 64 % 64 == Cut2(b, c)
  {
    var high, middle, low := a * 16 + b / 16, b % 16 * 4 + c / 64, c % 64;
    assert a * 65536 + b * 256 + c == 64 * (64 * high + middle) + low;
    Parts64(64 * high + middle, low);
    Parts64(high, middle);
  }

  lemma FourthDigit(a: byte, b: byte, c: byte)
    ensures (a * 65536 + b * 256 + c) % 64 == Cut3(c)
  {
  }

  lemma SplitIs(a: byte, b: byte, c: byte)
    ensures var n := a * 65536 + b * 256 + c;
            Split(a, b, c) == [Digit64(n, 0), Digit64(n, 1), Digit64(n, 2), Digit64(n, 3)]
  {
    FirstDigit(a, b, c);
    SecondDigit(a, b, c);
    ThirdDigit(a, b, c);
    FourthDigit(a, b, c);
    hide Cut0, Cut1, Cut2, Cut3;
  }

  /** Base64Encode, character by character: the digits of each group in the table's characters, and where bytes
      are missing from the last group, a = for each. */
  lemma {:induction false} EncodedIs(s: bytes, i: nat)
    requires i < |Encode(s)|
    ensures Encode(s)[i]
         == if 3 * (i / 4) + i % 4 <= |s| then Symbol(Digit64(Number24(s, i / 4), i % 4)) else '=' as int
    decreases |s|
  {
    hide Group, Symbol, Digit64, Number24;
    if |s| <= 3 {
      GroupIs(s, i);
    } else {
      NextNumber(s, i);
      if i < 4 {
        GroupIs(s[..3], i);
      } else {
        EncodedIs(s[3..], i - 4);
      }
    }
  }

  lemma NextNumber(s: bytes, i: nat)
    requires |s| > 3
    ensures i < 4 ==> i / 4 == 0 && i % 4 == i && Number24(s, 0) == Number24(s[..3], 0)
    ensures i >= 4 ==> i % 4 == (i - 4) % 4 && i / 4 == (i - 4) / 4 + 1
                       && Number24(s, i / 4) == Number24(s[3..], (i - 4) / 4)
  {
  }

  lemma GroupIs(s: bytes, k: nat)
    requires 1 <= |s| <= 3 && k < 4
    ensures Group(s)[k] == if k <= |s| then Symbol(Digit64(Number24(s, 0), k)) else '=' as int
  {
    hide Split, Symbol, Char, Digit64;
    SplitIs(s[0], Peek(s, 1), Peek(s, 2));
    if k <= |s| {
      TableHolds(Digit64(Number24(s, 0), k));
    }
  }

  // ---------------------------------------------------------------- decoding

  /** The characters that are read are those of the table. */
  lemma AlphabetIs(c: byte)
    ensures IsBase64(c) && c != EQUALS <==> exists v | 0 <= v < 64 :: Symbol(v) == c
  {
    forall v | 0 <= v < 64 ensures Symbol(v) == Char(v) {
      TableHolds(v);
    }
    hide Symbol;
    if IsBase64(c) && c != EQUALS {
      assert Char(Find(c)) == c;
    }
  }

  /** The values x, in the table's characters. */
  function Spelled(x: seq<nat>): (s: bytes)
    requires forall i | 0 <= i < |x| :: x[i] < 64
    ensures |s| == |x|
  {
    seq(|x|, i requires 0 <= i < |x| => Symbol(x[i]))
  }

  function At(x: seq<nat>, i: nat): nat {
    if i < |x| then x[i] else 0
  }

  /** The four values from 4 * g on as one number, those missing as zeros. */
  function Joined24(x: seq<nat>, g: nat): nat {
    At(x, 4 * g) * 262144 + At(x, 4 * g + 1) * 4096 + At(x, 4 * g + 2) * 64 + At(x, 4 * g + 3)
  }

  function Digit256(n: nat, k: nat): nat
    requires k < 3
  {
    (if k == 0 then n / 65536 else if k == 1 then n / 256 else n) % 256
  }

  lemma JoinIs(v0: nat, v1: nat, v2: nat, v3: nat)
    requires v0 < 64 && v1 < 64 && v2 < 64 && v3 < 64
    ensures var n := v0 * 262144 + v1 * 4096 + v2 * 64 + v3;
            && Join0(v0, v1) == Digit256(n, 0) && Join1(v1, v2) == Digit256(n, 1) && Join2(v2, v3) == Digit256(n, 2)
  {
    FirstByte(v0, v1, v2, v3);
    SecondByte(v0, v1, v2, v3);
    ThirdByte(v0, v1, v2, v3);
    hide Join0, Join1, Join2;
  }

  lemma FirstByte(v0: nat, v1: nat, v2: nat, v3: nat)
    requires v0 < 64 && v1 < 64 && v2 < 64 && v3 < 64
    ensures (v0 * 262144 + v1 * 4096 + v2 * 64 + v3) / 65536 % 256 == Join0(v0, v1)
  {
    assert v0 * 262144 + v1 * 4096 + v2 * 64 + v3
        == 65536 * (v0 * 4 + v1 / 16) + (v1 % 16 * 4096 + v2 * 64 + v3);
  }

  lemma Lowest(high: nat, low: nat)
    requires low < 256
    ensures (256 * high + low) % 256 == low
  {
  }

  lemma SecondByte(v0: nat, v1: nat, v2: nat, v3: nat)
    requires v0 < 64 && v1 < 64 && v2 < 64 && v3 < 64
    ensures (v0 * 262144 + v1 * 4096 + v2 * 64 + v3) / 256 % 256 == Join1(v1, v2)
  {
    var high, low := v0 * 4 + v1 / 16, v1 % 16 * 16 + v2 / 4;
    assert v0 * 262144 + v1 * 4096 + v2 * 64 + v3 == 256 * (256 * high + low) + (v2 % 4 * 64 + v3);
    Lowest(high, low);
    assert Join1(v1, v2) == low by {
      Lowest(0, low);
    }
  }

  lemma ThirdByte(v0: nat, v1: nat, v2: nat, v3: nat)
    requires v0 < 64 && v1 < 64 && v2 < 64 && v3 < 64
    ensures (v0 * 262144 + v1 * 4096 + v2 * 64 + v3) % 256 == Join2(v2, v3)
  {
    assert v0 * 262144 + v1 * 4096 + v2 * 64 + v3
        == 256 * (v0 * 1024 + v1 * 16 + v2 / 4) + (v2 % 4 * 64 + v3);
  }

  lemma FindSymbol(v: nat)
    requires v < 64
    ensures Find(Symbol(v)) == v && IsBase64(Symbol(v)) && Symbol(v) != EQUALS
  {
    TableHolds(v);
    FindChar(v);
  }

  /** Up to four characters. */
  lemma UngroupIs(x: seq<nat>, j: nat)
    requires 1 <= |x| <= 4 && (forall i | 0 <= i < |x| :: x[i] < 64) && j < |x| - 1
    ensures Ungroup(Spelled(x))[j] == Digit256(Joined24(x, 0), j)
  {
    hide Find, Digit256, Join0, Join1, Join2, Spelled, Ungroup, Joined24;
    var r := Spelled(x);
    SpelledFound(x);
    UngroupAt(r, j);
    JoinIs(x[0], At(x, 1), At(x, 2), At(x, 3));
    JoinedIs(x);
  }

  lemma SpelledFound(x: seq<nat>)
    requires forall i | 0 <= i < |x| :: x[i] < 64
    ensures forall i | 0 <= i < |x| :: Find(Spelled(x)[i]) == x[i]
  {
    hide Find;
    forall i | 0 <= i < |x| ensures Find(Spelled(x)[i]) == x[i] {
      FindSymbol(x[i]);
    }
  }

  lemma UngroupAt(r: bytes, j: nat)
    requires 1 <= |r| <= 4 && j < |r| - 1
    ensures Ungroup(r)[j] == if j == 0 then Join0(Find(r[0]), Find(r[1]))
                             else if j == 1 then Join1(Find(r[1]), Find(r[2]))
                             else Join2(Find(r[2]), Find(r[3]))
  {
    hide Join0, Join1, Join2, Find;
  }

  lemma JoinedIs(x: seq<nat>)
    requires x != []
    ensures Joined24(x, 0) == x[0] * 262144 + At(x, 1) * 4096 + At(x, 2) * 64 + At(x, 3)
  {
  }

  lemma {:induction false} GroupsAre(x: seq<nat>, j: nat)
    requires forall i | 0 <= i < |x| :: x[i] < 64
    ensures |DecodeAll(Spelled(x))| == |x| * 3 / 4
    ensures j < |x| * 3 / 4 ==> DecodeAll(Spelled(x))[j] == Digit256(Joined24(x, j / 3), j % 3)
    decreases |x|
  {
    hide Ungroup, Symbol, Digit256, Spelled, Joined24;
    if x == [] {
    } else if |x| <= 4 {
      if j < |x| - 1 {
        UngroupIs(x, j);
      }
    } else {
      assert Spelled(x)[..4] == Spelled(x[..4]) && Spelled(x)[4..] == Spelled(x[4..]) by {
        SpelledParts(x);
      }
      NextGroups(x, j);
      if j < 3 {
        UngroupIs(x[..4], j);
        GroupsAre(x[4..], 0);
      } else {
        GroupsAre(x[4..], j - 3);
      }
    }
  }

  lemma NextGroups(x: seq<nat>, j: nat)
    requires |x| > 4
    ensures |x| * 3 / 4 == 3 + |x[4..]| * 3 / 4
    ensures j < 3 ==> j / 3 == 0 && j % 3 == j && Joined24(x, 0) == Joined24(x[..4], 0)
    ensures j >= 3 ==> j % 3 == (j - 3) % 3 && Joined24(x, j / 3) == Joined24(x[4..], (j - 3) / 3)
  {
  }

  lemma SpelledParts(x: seq<nat>)
    requires |x| >= 4 && forall i | 0 <= i < |x| :: x[i] < 64
    ensures Spelled(x)[..4] == Spelled(x[..4]) && Spelled(x)[4..] == Spelled(x[4..])
  {
    hide Symbol;
  }

  /** Base64Decode, byte by byte: of the table's characters up to the first other one, each four make a number of 24
      bits and its three bytes; what is left over makes a byte less than it has characters. */
  lemma DecodedIs(x: seq<nat>, rest: bytes, j: nat)
    requires forall i | 0 <= i < |x| :: x[i] < 64
    requires rest == [] || forall v | 0 <= v < 64 :: Symbol(v) != rest[0]
    ensures |Decode(Spelled(x) + rest)| == |x| * 3 / 4
    ensures j < |x| * 3 / 4 ==> Decode(Spelled(x) + rest)[j] == Digit256(Joined24(x, j / 3), j % 3)
  {
    forall i | 0 <= i < |x| ensures IsBase64(Spelled(x)[i]) && Spelled(x)[i] != EQUALS {
      FindSymbol(x[i]);
    }
    if rest != [] {
      AlphabetIs(rest[0]);
    }
    hide Symbol, Spelled, DecodeAll, Digit256, IsBase64;
    ReadableConcat(Spelled(x), rest);
    assert Readable(rest) == [];
    assert Spelled(x) + [] == Spelled(x);
    GroupsAre(x, j);
  }
}
