/** The scanners of scalars see a buffer only from the cursor on, and its terminator as the end of the text. */
module JsonAlike {
  import opened Bytes
  import opened JsonEvents
  import opened JsonGrammar

  /** From p on, the buffer a holds the text u and a terminator. */
  predicate Alike(a: bytes, u: bytes, p: nat) {
    && p <= |u| && |a| == |u| + 1 && a[|u|] == NUL
    && forall i | p <= i < |u| :: a[i] == u[i]
  }

  lemma PeekAlike(a: bytes, u: bytes, p: nat, k: nat)
    requires Alike(a, u, p) && p <= k
    ensures Peek(a, k) == Peek(u, k)
    ensures Peek(u, k) != NUL ==> Alike(a, u, k + 1)
  {
  }

  lemma {:induction false} WordAlike(a: bytes, u: bytes, p: nat, word: bytes)
    requires Alike(a, u, p) && forall i | 0 <= i < |word| :: word[i] != NUL
    ensures Word(a, p, word) == Word(u, p, word)
    decreases |word|
  {
    PeekAlike(a, u, p, p);
    if word != [] && Peek(u, p) == word[0] {
      WordAlike(a, u, p + 1, word[1..]);
    }
  }

  lemma {:induction false} Hex4Alike(a: bytes, u: bytes, p: nat, i: nat, acc: nat)
    requires Alike(a, u, p) && i <= 4 && acc < Hex4Range(i)
    ensures Hex4(a, p, i, acc) == Hex4(u, p, i, acc)
    decreases 4 - i
  {
    hide Hex4;
    PeekAlike(a, u, p, p);
    if i < 4 {
      Hex4Step(a, p, i, acc);
      Hex4Step(u, p, i, acc);
      var d := HexDigit(Peek(u, p));
      if d >= 0 {
        Hex4Alike(a, u, p + 1, i + 1, acc * 16 + d);
      }
    } else {
      Hex4Ends(a, p);
      Hex4Ends(u, p);
    }
  }

  /** Both bytes of an escape are there before its digits are read. */
  lemma TrailAlike(a: bytes, u: bytes, q: nat, lead: nat)
    requires Alike(a, u, q) && 0xD800 <= lead <= 0xDBFF
    ensures TrailEscape(a, q, lead) == TrailEscape(u, q, lead)
  {
    hide Hex4;
    PeekAlike(a, u, q, q);
    PeekAlike(a, u, q, q + 1);
    if Peek(u, q) == BACKSLASH && Peek(u, q + 1) == LOWER_U {
      Hex4Alike(a, u, q + 2, 0, 0);
    }
  }

  lemma UnitAlike(a: bytes, u: bytes, p: nat)
    requires Alike(a, u, p)
    ensures NextUnit(a, p) == NextUnit(u, p)
    ensures !NextUnit(u, p).Broken? ==> Alike(a, u, NextUnit(u, p).next)
  {
    hide Hex4, TrailEscape;
    PeekAlike(a, u, p, p);
    if Peek(u, p) == BACKSLASH {
      PeekAlike(a, u, p, p + 1);
      if Peek(u, p + 1) == LOWER_U {
        Hex4Alike(a, u, p + 2, 0, 0);
        var x := Hex4(u, p + 2, 0, 0);
        if x.HexOk? && 0xD800 <= x.codepoint <= 0xDBFF {
          TrailAlike(a, u, p + 6, x.codepoint);
        }
      }
    }
  }

  lemma {:induction false} BodyAlike(a: bytes, u: bytes, p: nat)
    requires Alike(a, u, p)
    ensures Body(a, p) == Body(u, p)
    decreases |u| - p
  {
    hide NextUnit;
    UnitAlike(a, u, p);
    if NextUnit(u, p).Piece? {
      BodyAlike(a, u, NextUnit(u, p).next);
    }
  }

  lemma {:induction false} DigitsEndAlike(a: bytes, u: bytes, p: nat)
    requires Alike(a, u, p)
    ensures DigitsEnd(a, p) == DigitsEnd(u, p)
    decreases |u| - p
  {
    PeekAlike(a, u, p, p);
    if IsDigit(Peek(u, p)) {
      DigitsEndAlike(a, u, p + 1);
    }
  }

  lemma {:induction false} BigDigitsAlike(a: bytes, u: bytes, p: nat, d: nat)
    requires Alike(a, u, p)
    ensures BigDigits(a, p, d) == BigDigits(u, p, d)
    decreases |u| - p
  {
    hide DOUBLE_LIMIT;
    PeekAlike(a, u, p, p);
    if IsDigit(Peek(u, p)) && d < DOUBLE_LIMIT {
      BigDigitsAlike(a, u, p + 1, d * 10 + (u[p] - ZERO));
    }
  }

  lemma {:induction false} ExpDigitsAlike(a: bytes, u: bytes, p: nat, exp: nat, minus: bool)
    requires Alike(a, u, p)
    ensures ExpDigits(a, p, exp, minus) == ExpDigits(u, p, exp, minus)
    decreases |u| - p
  {
    PeekAlike(a, u, p, p);
    if IsDigit(Peek(u, p)) {
      ExpDigitsAlike(a, u, p + 1, exp * 10 + (u[p] - ZERO), minus);
    }
  }

  lemma FractionAlike(a: bytes, u: bytes, p: nat)
    requires Alike(a, u, p)
    ensures Fraction(a, p) == Fraction(u, p) && Alike(a, u, Fraction(u, p).next)
  {
    hide DigitsEnd;
    PeekAlike(a, u, p, p);
    PeekAlike(a, u, p, p + 1);
    if Peek(u, p) == DOT {
      DigitsEndAlike(a, u, p + 1);
    }
  }

  lemma ExponentAlike(a: bytes, u: bytes, p: nat)
    requires Alike(a, u, p)
    ensures Exponent(a, p) == Exponent(u, p)
  {
    hide ExpDigits;
    PeekAlike(a, u, p, p);
    PeekAlike(a, u, p, p + 1);
    if IsE(Peek(u, p)) {
      var c := Peek(u, p + 1);
      var q := if c == PLUS || c == MINUS then p + 2 else p + 1;
      PeekAlike(a, u, p, q);
      if IsDigit(Peek(u, q)) {
        ExpDigitsAlike(a, u, q + 1, u[q] - ZERO, c == MINUS);
      }
    }
  }

  lemma WholeAlike(a: bytes, u: bytes, q: nat)
    requires Alike(a, u, q)
    ensures IntegerEnd(a, q) == IntegerEnd(u, q) && Alike(a, u, IntegerEnd(u, q))
    ensures a[q..IntegerEnd(u, q)] == u[q..IntegerEnd(u, q)]
    ensures BigDigits(a, q, 0) == BigDigits(u, q, 0)
  {
    hide DigitsEnd, BigDigits;
    PeekAlike(a, u, q, q);
    DigitsEndAlike(a, u, q);
    BigDigitsAlike(a, u, q, 0);
  }

  lemma NumberAlike(a: bytes, u: bytes, p: nat, log: seq<Event>, h: Handler)
    requires Alike(a, u, p)
    ensures ParseNumber(a, p, log, h) == ParseNumber(u, p, log, h)
  {
    hide Fraction, Exponent, IntegerEnd, BigDigits, ValueOf;
    PeekAlike(a, u, p, p);
    var q := if Peek(u, p) == MINUS then p + 1 else p;
    PeekAlike(a, u, p, q);
    if IsDigit(Peek(u, q)) {
      WholeAlike(a, u, q);
      FractionAlike(a, u, IntegerEnd(u, q));
      var f := Fraction(u, IntegerEnd(u, q));
      ExponentAlike(a, u, f.next);
      var x := Exponent(u, f.next);
      assert a[p..x.next] == u[p..x.next];
    }
  }

  /** A scalar of any kind. */
  lemma ScalarAlike(a: bytes, u: bytes, p: nat, log: seq<Event>, h: Handler)
    requires Alike(a, u, p)
    ensures ParseScalar(a, p, log, h) == ParseScalar(u, p, log, h)
  {
    hide Word, Body, ParseNumber;
    PeekAlike(a, u, p, p);
    NumberAlike(a, u, p, log, h);
    if Peek(u, p) != NUL {
      BodyAlike(a, u, p + 1);
      WordAlike(a, u, p + 1, ULL);
      WordAlike(a, u, p + 1, RUE);
      WordAlike(a, u, p + 1, ALSE);
    }
  }

  lemma StringAlike(a: bytes, u: bytes, p: nat, log: seq<Event>, h: Handler, isKey: bool)
    requires Alike(a, u, p) && p < |u|
    ensures ParseString(a, p, log, h, isKey) == ParseString(u, p, log, h, isKey)
    ensures Body(a, p + 1) == Body(u, p + 1)
  {
    hide Body;
    BodyAlike(a, u, p + 1);
  }
}
