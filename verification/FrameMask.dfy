/** Masking of WebSocket payloads (section 5.3 of RFC 6455): byte by byte, and a machine word at a time
    with a key that is passed along from chunk to chunk. */
module FrameMask {
  import opened Bytes
  import opened Words

  // ---------------------------------------------------------------- bitwise operators on numbers

  function Xor(a: nat, b: nat): nat {
    if a == 0 && b == 0 then 0 else 2 * Xor(a / 2, b / 2) + (a + b) % 2
  }

  function Or(a: nat, b: nat): nat {
    if a == 0 && b == 0 then 0 else 2 * Or(a / 2, b / 2) + (if a % 2 == 1 || b % 2 == 1 then 1 else 0)
  }

  lemma Halve(a: nat, r: nat)
    requires r < 2
    ensures (2 * a + r) / 2 == a && (2 * a + r) % 2 == r
  {
  }

  lemma Parity(a: nat, b: nat)
    ensures (a + b) % 2 == (a % 2 + b % 2) % 2
    ensures ((a + b) % 2 + b % 2) % 2 == a % 2
  {
  }

  lemma XorBit(a: nat, b: nat, r: nat, s: nat)
    requires r < 2 && s < 2
    ensures Xor(2 * a + r, 2 * b + s) == 2 * Xor(a, b) + (r + s) % 2
  {
    Halve(a, r);
    Halve(b, s);
    Parity(2 * a + r, 2 * b + s);
  }

  lemma OrBit(a: nat, b: nat, r: nat, s: nat)
    requires r < 2 && s < 2
    ensures Or(2 * a + r, 2 * b + s) == 2 * Or(a, b) + (if r == 1 || s == 1 then 1 else 0)
  {
    Halve(a, r);
    Halve(b, s);
  }

  lemma {:induction false} XorSelf(a: nat, b: nat)
    ensures Xor(Xor(a, b), b) == a
  {
    if a != 0 || b != 0 {
      var x, r := Xor(a / 2, b / 2), (a + b) % 2;
      assert Xor(a, b) == 2 * x + r;
      hide Xor;
      XorSelf(a / 2, b / 2);
      XorBit(x, b / 2, r, b % 2);
      Parity(a, b);
    }
  }

  /** m doublings of a number. */
  function Raised(c: nat, m: nat): nat {
    if m == 0 then c else 2 * Raised(c, m - 1)
  }

  /** The low m bits, and the rest, are worked on apart. */
  lemma {:induction false} XorStays(a: nat, b: nat, m: nat)
    requires a < Raised(1, m) && b < Raised(1, m)
    ensures Xor(a, b) < Raised(1, m)
    decreases m
  {
    if m > 0 {
      RaisedStep(1, m);
      hide Xor, Raised;
      XorStays(a / 2, b / 2, m - 1);
      XorParts(a, b, 0, 0);
    }
  }

  lemma {:induction false} XorSplit(a: nat, b: nat, c: nat, d: nat, m: nat)
    requires a < Raised(1, m) && b < Raised(1, m)
    ensures Xor(a + Raised(c, m), b + Raised(d, m)) == Xor(a, b) + Raised(Xor(c, d), m)
    decreases m
  {
    hide Xor;
    if m == 0 {
      XorZero();
    } else {
      RaisedStep(c, m);
      RaisedStep(d, m);
      RaisedStep(1, m);
      RaisedStep(Xor(c, d), m);
      hide Raised;
      XorSplit(a / 2, b / 2, c, d, m - 1);
      XorHigher(a, b, Raised(c, m - 1), Raised(d, m - 1));
    }
  }

  lemma XorHigher(a: nat, b: nat, c: nat, d: nat)
    ensures Xor(a + 2 * c, b + 2 * d) == Xor(a, b) + 2 * (Xor(a / 2 + c, b / 2 + d) - Xor(a / 2, b / 2))
  {
    hide Xor;
    XorParts(a, b, c, d);
    XorParts(a, b, 0, 0);
  }

  lemma RaisedStep(c: nat, m: nat)
    requires m > 0
    ensures Raised(c, m) == 2 * Raised(c, m - 1)
  {
  }

  lemma XorParts(a: nat, b: nat, c: nat, d: nat)
    ensures Xor(a + 2 * c, b + 2 * d) == 2 * Xor(a / 2 + c, b / 2 + d) + (a % 2 + b % 2) % 2
  {
    hide Xor;
    XorBit(a / 2 + c, b / 2 + d, a % 2, b % 2);
    assert 2 * (a / 2 + c) + a % 2 == a + 2 * c && 2 * (b / 2 + d) + b % 2 == b + 2 * d;
  }

  /** Or of numbers without a common bit is their sum. */
  lemma {:induction false} OrSplit(a: nat, d: nat, m: nat)
    requires a < Raised(1, m)
    ensures Or(a, Raised(d, m)) == a + Raised(d, m) == Or(Raised(d, m), a)
    decreases m
  {
    if m == 0 {
      OrZero(d);
    } else {
      OrSplit(a / 2, d, m - 1);
      OrBit(a / 2, Raised(d, m - 1), a % 2, 0);
      OrBit(Raised(d, m - 1), a / 2, 0, a % 2);
      hide Or;
    }
  }

  lemma {:induction false} OrZero(d: nat)
    ensures Or(0, d) == d == Or(d, 0)
  {
    if d != 0 {
      OrZero(d / 2);
      OrBit(0, d / 2, 0, d % 2);
      OrBit(d / 2, 0, d % 2, 0);
      hide Or;
    }
  }

  lemma {:induction false} RaisedBytes(c: nat, k: nat)
    ensures Raised(c, 8 * k) == Pow(k) * c
  {
    if k > 0 {
      RaisedBytes(c, k - 1);
      RaisedEight(c, 8 * k - 8);
      assert Pow(k) * c == 256 * (Pow(k - 1) * c);
    }
  }

  lemma RaisedEight(c: nat, m: nat)
    ensures Raised(c, m + 8) == 256 * Raised(c, m)
  {
    assert Raised(c, m + 4) == 16 * Raised(c, m) by {
      assert Raised(c, m + 2) == 2 * Raised(c, m + 1);
      assert Raised(c, m + 3) == 2 * Raised(c, m + 2);
      assert Raised(c, m + 4) == 2 * Raised(c, m + 3);
    }
    assert Raised(c, m + 6) == 2 * Raised(c, m + 5);
    assert Raised(c, m + 7) == 2 * Raised(c, m + 6);
  }

  lemma XorBytes(a: nat, b: nat, c: nat, d: nat, k: nat)
    requires a < Pow(k) && b < Pow(k)
    ensures Xor(a + Pow(k) * c, b + Pow(k) * d) == Xor(a, b) + Pow(k) * Xor(c, d)
    ensures Xor(a, b) < Pow(k)
  {
    hide Xor, Raised, Pow;
    RaisedBytes(1, k);
    RaisedBytes(c, k);
    RaisedBytes(d, k);
    RaisedBytes(Xor(c, d), k);
    XorSplit(a, b, c, d, 8 * k);
    XorStays(a, b, 8 * k);
  }

  lemma OrBytes(a: nat, d: nat, k: nat)
    requires a < Pow(k)
    ensures Or(a, Pow(k) * d) == a + Pow(k) * d == Or(Pow(k) * d, a)
  {
    RaisedBytes(1, k);
    RaisedBytes(d, k);
    OrSplit(a, d, 8 * k);
  }

  function XorByte(a: byte, b: byte): byte {
    XorBytes(a, b, 0, 0, 1);
    Xor(a, b)
  }

  // ---------------------------------------------------------------- the byte loop's meaning

  function KeyAt(key: Key, i: nat): byte {
    key[i % 4]
  }

  /** Byte i is xored with key byte offset + i modulo 4. */
  function Masked(s: bytes, key: Key, offset: nat): (r: bytes)
    ensures |r| == |s|
  {
    seq(|s|, i requires 0 <= i < |s| => XorByte(s[i], KeyAt(key, offset + i)))
  }

  /** Bit k of a number. */
  function BitAt(n: nat, k: nat): nat {
    if k == 0 then n % 2 else BitAt(n / 2, k - 1)
  }

  lemma {:induction false} XorBits(a: nat, b: nat, k: nat)
    ensures BitAt(Xor(a, b), k) == (BitAt(a, k) + BitAt(b, k)) % 2
  {
    var x, r := Xor(a / 2, b / 2), (a + b) % 2;
    assert Xor(a, b) == 2 * x + r;
    Halve(x, r);
    hide Xor;
    if k == 0 {
      Parity(a, b);
    } else {
      XorBits(a / 2, b / 2, k - 1);
    }
  }

  /** Section 5.3 of RFC 6455, bit by bit: each bit of byte i is flipped exactly if the same bit of key byte
      offset + i modulo 4 is set. */
  lemma MaskedBits(s: bytes, key: Key, offset: nat, i: nat, k: nat)
    requires i < |s|
    ensures BitAt(Masked(s, key, offset)[i], k) == (BitAt(s[i], k) + BitAt(key[(offset + i) % 4], k)) % 2
  {
    hide Xor, BitAt;
    XorBits(s[i], key[(offset + i) % 4], k);
  }

  /** Masking twice is the identity. */
  lemma MaskedTwice(s: bytes, key: Key, offset: nat)
    ensures Masked(Masked(s, key, offset), key, offset) == s
  {
    hide Xor;
    forall i | 0 <= i < |s| ensures Masked(Masked(s, key, offset), key, offset)[i] == s[i] {
      XorSelf(s[i], KeyAt(key, offset + i));
    }
  }

  /** The key as it stands n bytes further on. */
  function Rotated(key: Key, n: nat): Key {
    [key[n % 4], key[(n + 1) % 4], key[(n + 2) % 4], key[(n + 3) % 4]]
  }

  lemma RotatedAt(key: Key, n: nat, i: nat)
    ensures Rotated(key, n)[i % 4] == key[(n + i) % 4]
  {
    var m := i % 4;
    assert n + i == 4 * (i / 4) + (n + m);
    assert (n + i) % 4 == (n + m) % 4;
  }

  lemma RotatedTwice(key: Key, n: nat, m: nat)
    ensures Rotated(Rotated(key, n), m) == Rotated(key, n + m)
  {
    RotatedAt(key, n, m);
    RotatedAt(key, n, m + 1);
    RotatedAt(key, n, m + 2);
    RotatedAt(key, n, m + 3);
  }

  /** Masking in two pieces, the second with the key rotated by the length of the first. */
  lemma MaskedConcat(s: bytes, t: bytes, key: Key, offset: nat)
    ensures Masked(s + t, key, offset) == Masked(s, key, offset) + Masked(t, Rotated(key, |s|), offset)
  {
    hide XorByte;
    forall i | 0 <= i < |t|
      ensures Masked(s + t, key, offset)[|s| + i] == Masked(t, Rotated(key, |s|), offset)[i]
    {
      RotatedAt(key, |s|, offset + i);
    }
  }

  // ---------------------------------------------------------------- machine words

  /** Word size in bytes and byte order. */
  datatype Arch = Arch(wide: bool, little: bool)

  function Size(a: Arch): (n: nat)
    ensures n == 4 || n == 8
  {
    if a.wide then 8 else 4
  }

  /** The number bytes make, the least significant first. */
  function Number(s: bytes): nat {
    if s == [] then 0 else s[0] + 256 * Number(s[1..])
  }

  lemma {:induction false} NumberLow(s: bytes)
    ensures Little(Number(s), |s|) == s && Number(s) < Pow(|s|)
  {
    if s != [] {
      NumberLow(s[1..]);
      var n := Number(s[1..]);
      assert (s[0] + 256 * n) / 256 == n && (s[0] + 256 * n) % 256 == s[0];
    }
  }

  lemma {:induction false} LowNumber(w: nat, n: nat)
    requires w < Pow(n)
    ensures Number(Little(w, n)) == w
  {
    if n > 0 {
      LowNumber(w / 256, n - 1);
    }
  }

  lemma {:induction false} NumberConcat(s: bytes, t: bytes)
    ensures Number(s + t) == Number(s) + Pow(|s|) * Number(t)
  {
    if s == [] {
      assert s + t == t;
    } else {
      NumberConcat(s[1..], t);
      assert (s + t)[1..] == s[1..] + t;
      assert Pow(|s|) * Number(t) == 256 * (Pow(|s| - 1) * Number(t));
    }
  }

  function Reversed(s: bytes): (r: bytes)
    ensures |r| == |s|
  {
    seq(|s|, k requires 0 <= k < |s| => s[|s| - 1 - k])
  }

  /** Bytes in memory order from bytes in order of significance, and back. */
  function Ordered(a: Arch, s: bytes): (r: bytes)
    ensures |r| == |s|
  {
    if a.little then s else Reversed(s)
  }

  lemma OrderedTwice(a: Arch, s: bytes)
    ensures Ordered(a, Ordered(a, s)) == s
  {
  }

  /** The bytes of a word in memory, and the word that stands there. */
  function Stored(a: Arch, w: nat): (s: bytes)
    ensures |s| == Size(a)
  {
    Ordered(a, Little(w, Size(a)))
  }

  function Loaded(a: Arch, s: bytes): nat {
    Number(Ordered(a, s))
  }

  lemma LoadedStores(a: Arch, s: bytes)
    requires |s| == Size(a)
    ensures Stored(a, Loaded(a, s)) == s && Loaded(a, s) < Pow(Size(a))
  {
    NumberLow(Ordered(a, s));
    OrderedTwice(a, s);
  }

  lemma StoredLoads(a: Arch, w: nat)
    requires w < Pow(Size(a))
    ensures Loaded(a, Stored(a, w)) == w
  {
    LowNumber(w, Size(a));
    OrderedTwice(a, Little(w, Size(a)));
  }

  function Xored(s: bytes, t: bytes): (r: bytes)
    requires |s| == |t|
    ensures |r| == |s|
  {
    seq(|s|, i requires 0 <= i < |s| => XorByte(s[i], t[i]))
  }

  lemma {:induction false} NumberXor(s: bytes, t: bytes)
    requires |s| == |t|
    ensures Number(Xored(s, t)) == Xor(Number(s), Number(t))
  {
    hide Xor;
    if s == [] {
      XorZero();
    } else {
      NumberXor(s[1..], t[1..]);
      assert Xored(s, t)[1..] == Xored(s[1..], t[1..]);
      assert Pow(1) == 256;
      XorBytes(s[0], t[0], Number(s[1..]), Number(t[1..]), 1);
    }
  }

  lemma XorZero()
    ensures Xor(0, 0) == 0
  {
  }

  lemma ReversedXored(s: bytes, t: bytes)
    requires |s| == |t|
    ensures Reversed(Xored(s, t)) == Xored(Reversed(s), Reversed(t))
  {
    hide XorByte;
  }

  /** Xor of words is xor of their bytes in memory, in either byte order. */
  lemma XorStored(a: Arch, s: bytes, w: nat)
    requires |s| == Size(a) && w < Pow(Size(a))
    ensures Stored(a, Xor(Loaded(a, s), w)) == Xored(s, Stored(a, w))
    ensures Xor(Loaded(a, s), w) < Pow(Size(a))
  {
    hide Xor, XorByte, Number, Little;
    var t := Stored(a, w);
    StoredLoads(a, w);
    NumberXor(Ordered(a, s), Ordered(a, t));
    ReversedXored(s, t);
    assert Xor(Loaded(a, s), w) == Loaded(a, Xored(s, t));
    LoadedStores(a, Xored(s, t));
  }

  // ---------------------------------------------------------------- prepared keys

  /** prepare_masking_key: the four bytes as an integer, twice over in a wide word. */
  function PrepareMaskingKey(a: Arch, key: Key): nat {
    var i := Number(Ordered(a, key));
    if a.wide then Or(Pow(4) * i, i) else i
  }

  /** The bytes of a word of either size that repeats the key. */
  function Spread(a: Arch, key: Key): (s: bytes)
    ensures |s| == Size(a)
  {
    if a.wide then key + key else key
  }

  function KeyOf(a: Arch, w: nat): Key {
    Stored(a, w)[..4]
  }

  /** A word that holds the same four bytes wherever it is cut. */
  predicate Prepared(a: Arch, w: nat) {
    w < Pow(Size(a)) && Stored(a, w) == Spread(a, KeyOf(a, w))
  }

  lemma SpreadAt(a: Arch, key: Key, i: nat)
    requires i < Size(a)
    ensures Spread(a, key)[i] == key[i % 4]
  {
  }

  lemma PrepareStores(a: Arch, key: Key)
    ensures Prepared(a, PrepareMaskingKey(a, key)) && KeyOf(a, PrepareMaskingKey(a, key)) == key
  {
    hide Loaded, Stored, PrepareMaskingKey;
    assert (key + key)[..4] == key;
    PreparedIsLoaded(a, key);
    LoadedStores(a, Spread(a, key));
  }

  lemma PreparedIsLoaded(a: Arch, key: Key)
    ensures PrepareMaskingKey(a, key) == Loaded(a, Spread(a, key))
  {
    if a.wide {
      OrderedKeys(a, key);
      hide Ordered;
      DoubledNumber(Ordered(a, key));
    }
  }

  lemma OrderedKeys(a: Arch, key: Key)
    ensures Ordered(a, key + key) == Ordered(a, key) + Ordered(a, key)
  {
  }

  /** Four bytes beside themselves, or-ed, are the number of the bytes twice over. */
  lemma DoubledNumber(k: bytes)
    requires |k| == 4
    ensures Or(Pow(4) * Number(k), Number(k)) == Number(k + k)
  {
    hide Or, Number, Little, Pow;
    NumberLow(k);
    OrBytes(Number(k), Number(k), 4);
    NumberConcat(k, k);
  }

  /** Shifts by whole bytes; what is shifted left leaves a word of n bytes at its upper end. */
  function ShiftRight(w: nat, bytes: nat): nat {
    Quotient(w, Pow(bytes))
  }

  function Quotient(w: nat, p: nat): nat
    requires p > 0
  {
    w / p
  }

  function ShiftLeft(w: nat, bytes: nat, n: nat): nat {
    w * Pow(bytes) % Pow(n)
  }

  /** circshift_prepared_key. A shift by the whole word gives 0, so that offset 0 leaves the key alone. */
  function Circshift(a: Arch, w: nat, offset: nat): nat
    requires offset <= Size(a)
  {
    if a.little then Or(ShiftRight(w, offset), ShiftLeft(w, Size(a) - offset, Size(a)))
    else Or(ShiftLeft(w, offset, Size(a)), ShiftRight(w, Size(a) - offset))
  }

  lemma {:induction false} PowAdd(j: nat, k: nat)
    ensures Pow(j + k) == Pow(j) * Pow(k)
  {
    if j > 0 {
      PowAdd(j - 1, k);
      assert Pow(j) * Pow(k) == 256 * (Pow(j - 1) * Pow(k));
    }
  }

  lemma Multiples(p: nat, d: int)
    ensures d >= 1 ==> p * d >= p
    ensures d <= -1 ==> p * d + p <= 0
  {
  }

  lemma DivideParts(x: nat, y: nat, p: nat)
    requires x < p
    ensures (x + p * y) / p == y && (x + p * y) % p == x
  {
    var n := x + p * y;
    var q, r := n / p, n % p;
    assert n == p * q + r && 0 <= r < p;
    Multiples(p, q - y);
    assert p * (q - y) == p * q - p * y;
  }

  lemma SplitNumber(s: bytes, l: nat)
    requires l <= |s|
    ensures Number(s) == Number(s[..l]) + Pow(l) * Number(s[l..]) && Number(s[..l]) < Pow(l)
  {
    hide Number;
    NumberConcat(s[..l], s[l..]);
    assert s[..l] + s[l..] == s;
    NumberLow(s[..l]);
  }

  lemma Reassociate(x: nat, p: nat, y: nat, q: nat)
    requires x < p && q > 0
    ensures (x + p * y) * q == q * x + (p * q) * y && q * x < p * q
  {
    assert p * y * q == p * q * y;
  }

  /** Shifting a number by bytes, right and left. */
  lemma ShiftParts(s: bytes, l: nat)
    requires l <= |s|
    ensures ShiftRight(Number(s), l) == Number(s[l..])
    ensures ShiftLeft(Number(s), |s| - l, |s|) == Pow(|s| - l) * Number(s[..l])
  {
    hide Number, Pow;
    var x, y, p, q := Number(s[..l]), Number(s[l..]), Pow(l), Pow(|s| - l);
    SplitNumber(s, l);
    DivideParts(x, y, p);
    PowAdd(l, |s| - l);
    Reassociate(x, p, y, q);
    DivideParts(q * x, y, p * q);
  }

  /** Both shifts together rotate the bytes. */
  lemma RotateNumber(s: bytes, l: nat)
    requires l <= |s|
    ensures Or(ShiftRight(Number(s), l), ShiftLeft(Number(s), |s| - l, |s|)) == Number(s[l..] + s[..l])
    ensures Or(ShiftLeft(Number(s), |s| - l, |s|), ShiftRight(Number(s), l)) == Number(s[l..] + s[..l])
  {
    hide Number, Or, Pow, ShiftLeft, ShiftRight;
    ShiftParts(s, l);
    NumberLow(s[l..]);
    OrBytes(Number(s[l..]), Number(s[..l]), |s| - l);
    NumberConcat(s[l..], s[..l]);
  }

  /** The shift rotates the bytes in memory to the left, in either byte order. */
  lemma CircStores(a: Arch, w: nat, l: nat)
    requires w < Pow(Size(a)) && l <= Size(a)
    ensures Stored(a, Circshift(a, w, l)) == Stored(a, w)[l..] + Stored(a, w)[..l]
    ensures Circshift(a, w, l) < Pow(Size(a))
  {
    hide Number, Or, Little, Pow, ShiftLeft, ShiftRight;
    var s, n := Little(w, Size(a)), Size(a);
    LowNumber(w, n);
    var r := if a.little then l else n - l;
    RotateNumber(s, r);
    NumberLow(s[r..] + s[..r]);
    assert Ordered(a, s[r..] + s[..r]) == Ordered(a, s)[l..] + Ordered(a, s)[..l];
  }

  lemma SpreadRotates(a: Arch, key: Key, l: nat)
    requires l < Size(a)
    ensures Spread(a, key)[l..] + Spread(a, key)[..l] == Spread(a, Rotated(key, l))
  {
    var s, t := Spread(a, key)[l..] + Spread(a, key)[..l], Spread(a, Rotated(key, l));
    match l % 4 {
      case 0 => assert Rotated(key, l) == [key[0], key[1], key[2], key[3]];
      case 1 => assert Rotated(key, l) == [key[1], key[2], key[3], key[0]];
      case 2 => assert Rotated(key, l) == [key[2], key[3], key[0], key[1]];
      case _ => assert Rotated(key, l) == [key[3], key[0], key[1], key[2]];
    }
    hide Rotated;
    match l {
      case 0 => assert s == t;
      case 1 => assert s == t;
      case 2 => assert s == t;
      case 3 => assert s == t;
      case 4 => assert s == t;
      case 5 => assert s == t;
      case 6 => assert s == t;
      case _ => assert s == t;
    }
  }

  /** The key passed along is the key as it stands after the bytes masked. */
  lemma CircRotates(a: Arch, w: nat, l: nat)
    requires Prepared(a, w) && l < Size(a)
    ensures Prepared(a, Circshift(a, w, l)) && KeyOf(a, Circshift(a, w, l)) == Rotated(KeyOf(a, w), l)
  {
    var key := KeyOf(a, w);
    CircStores(a, w, l);
    SpreadRotates(a, key, l);
    assert Spread(a, Rotated(key, l))[..4] == Rotated(key, l);
    hide Stored, Circshift, Pow, Rotated;
  }
}
