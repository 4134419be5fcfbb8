/** The table-driven UTF-8 validator of WebSocket++. */
module Utf8Validator {
  import opened Bytes
  import opened Utf8

  const ACCEPT: nat := 0
  const REJECT: nat := 1

  /** The first 256 entries of utf8d: the type of a byte. */
  function Kind(c: byte): (k: nat)
    ensures k < 12
  {
    if c < 0x80 then 0
    else if c < 0x90 then 1
    else if c < 0xA0 then 9
    else if c < 0xC0 then 7
    else if c < 0xC2 then 8
    else if c < 0xE0 then 2
    else if c == 0xE0 then 10
    else if c == 0xED then 4
    else if c < 0xF0 then 3
    else if c == 0xF0 then 11
    else if c < 0xF4 then 6
    else if c == 0xF4 then 5
    else 8
  }

  /** The rest of utf8d, a row a state: the state after a byte of a type. The types of the continuation
      bytes are 1, 9 and 7. */
  function Next(state: nat, kind: nat): (s: nat)
    requires state < 9 && kind < 12
    ensures s < 9
  {
    match state
    case 0 => Lead(kind)
    case 2 => if kind == 1 || kind == 7 || kind == 9 then 0 else 1
    case 3 => if kind == 1 || kind == 7 || kind == 9 then 2 else 1
    case 4 => if kind == 7 then 2 else 1
    case 5 => if kind == 1 || kind == 9 then 2 else 1
    case 6 => if kind == 7 || kind == 9 then 3 else 1
    case 7 => if kind == 1 || kind == 7 || kind == 9 then 3 else 1
    case 8 => if kind == 1 then 3 else 1
    case _ => 1
  }

  /** The first row. */
  function Lead(kind: nat): (s: nat)
    ensures s < 9
  {
    match kind
    case 0 => 0
    case 2 => 2
    case 3 => 3
    case 4 => 5
    case 5 => 8
    case 6 => 7
    case 10 => 4
    case 11 => 6
    case _ => 1
  }

  /** m_state and m_codepoint. */
  datatype Dfa = Dfa(state: nat, codep: nat)

  const START: Dfa := Dfa(ACCEPT, 0)

  /** decode. The code point is a 32-bit word: its high bits fall off. */
  function Step(d: Dfa, c: byte): (r: Dfa)
    requires d.state < 9
    ensures r.state < 9
  {
    Dfa(Next(d.state, Kind(c)),
        if d.state != ACCEPT then (d.codep * 64 + c % 64) % 0x1_0000_0000 else c % Room(Kind(c)))
  }

  function Run(d: Dfa, s: bytes): (r: Dfa)
    requires d.state < 9
    ensures r.state < 9
    decreases |s|
  {
    if s == [] then d else Run(Step(d, s[0]), s[1..])
  }

  lemma {:induction false} RunConcat(d: Dfa, a: bytes, b: bytes)
    requires d.state < 9
    ensures Run(d, a + b) == Run(Run(d, a), b)
    decreases |a|
  {
    hide Step;
    if a == [] {
      assert a + b == b;
    } else {
      assert (a + b)[0] == a[0] && (a + b)[1..] == a[1..] + b;
      RunConcat(Step(d, a[0]), a[1..], b);
    }
  }

  /** The reject state is never left. */
  lemma {:induction false} RejectStays(d: Dfa, s: bytes)
    requires d.state == REJECT
    ensures Run(d, s).state == REJECT
    decreases |s|
  {
    if s != [] {
      RejectStays(Step(d, s[0]), s[1..]);
    }
  }

  // ---------------------------------------------------------------- one character

  lemma RunStep(d: Dfa, c: byte, rest: bytes)
    requires d.state < 9
    ensures Run(d, [c] + rest) == Run(Step(d, c), rest)
  {
    hide Step;
    assert ([c] + rest)[1..] == rest;
  }

  lemma RunOne(d: Dfa, a: byte)
    requires d.state < 9
    ensures Run(d, [a]) == Step(d, a)
  {
    assert [a] + [] == [a];
    RunStep(d, a, []);
  }

  lemma RunTwo(d: Dfa, a: byte, b: byte)
    requires d.state < 9
    ensures Run(d, [a, b]) == Step(Step(d, a), b)
  {
    hide Step, Run;
    assert [a] + [b] == [a, b];
    RunStep(d, a, [b]);
    RunOne(Step(d, a), b);
  }

  lemma RunThree(d: Dfa, a: byte, b: byte, c: byte)
    requires d.state < 9
    ensures Run(d, [a, b, c]) == Step(Step(Step(d, a), b), c)
  {
    hide Step, Run;
    assert [a] + [b, c] == [a, b, c];
    RunStep(d, a, [b, c]);
    RunTwo(Step(d, a), b, c);
  }

  lemma RunFour(d: Dfa, a: byte, b: byte, c: byte, e: byte)
    requires d.state < 9
    ensures Run(d, [a, b, c, e]) == Step(Step(Step(Step(d, a), b), c), e)
  {
    hide Step, Run;
    assert [a] + [b, c, e] == [a, b, c, e];
    RunStep(d, a, [b, c, e]);
    RunThree(Step(d, a), b, c, e);
  }

  /** The first byte of several. */
  lemma StepLead(d: Dfa, a: byte)
    requires d.state == ACCEPT && Kind(a) in {2, 3, 4, 5, 6, 10, 11}
    ensures Step(d, a) == Dfa(Lead(Kind(a)), a % Room(GetRange(a))) && Step(d, a).codep < 64
  {
  }

  /** A byte after it; five of them fit in 32 bits. */
  lemma StepMore(d: Dfa, c: byte)
    requires 0 < d.state < 9 && d.codep < 0x40000
    ensures Step(d, c) == Dfa(Next(d.state, Kind(c)), d.codep * 64 + c % 64)
  {
  }

  /** The types of the two tables agree, but for the numbering of the continuation bytes. */
  lemma KindIsRange(c: byte)
    ensures GetRange(c) == match Kind(c) case 1 => 0x10 case 7 => 0x20 case 9 => 0x40 case other => other
    ensures 0x80 <= c < 0xC0 <==> Kind(c) in {1, 7, 9}
    ensures c < 0x80 <==> Kind(c) == 0
    ensures Kind(c) == 1 <==> 0x80 <= c < 0x90
    ensures Kind(c) == 7 <==> 0xA0 <= c < 0xC0
    ensures Kind(c) !in {1, 7, 9} ==> Room(GetRange(c)) == Room(Kind(c))
  {
  }

  /** Two bytes are accepted, as one character, exactly when they encode one; and that is its code point. */
  lemma TwoRun(d: Dfa, a: byte, b: byte)
    requires d.state == ACCEPT && Kind(a) == 2
    ensures Run(d, [a]).state !in {ACCEPT, REJECT}
    ensures if Kind(b) in {1, 7, 9} then
              var cp := a % 64 * 64 + b % 64;
              Unicode(cp) && Encode(cp) == [a, b] && Run(d, [a, b]) == Dfa(ACCEPT, cp)
            else Run(d, [a, b]).state == REJECT
  {
    RunOne(d, a);
    RunTwo(d, a, b);
    KindIsRange(a);
    KindIsRange(b);
    hide GetRange, Kind, Run, Encode;
    if Kind(b) in {1, 7, 9} {
      TwoBytes(a, b);
    }
  }

  predicate GoodSecond(a: byte, b: byte) {
    if Kind(a) == 10 then Kind(b) == 7
    else if Kind(a) == 4 then Kind(b) in {1, 9}
    else if Kind(a) == 11 then Kind(b) in {7, 9}
    else if Kind(a) == 5 then Kind(b) == 1
    else Kind(b) in {1, 7, 9}
  }

  lemma ThreeRun(d: Dfa, a: byte, b: byte, c: byte)
    requires d.state == ACCEPT && Kind(a) in {3, 4, 10}
    ensures Run(d, [a]).state !in {ACCEPT, REJECT}
    ensures if GoodSecond(a, b) then Run(d, [a, b]).state !in {ACCEPT, REJECT} else Run(d, [a, b]).state == REJECT
    ensures if GoodSecond(a, b) && Kind(c) in {1, 7, 9} then
              Run(d, [a, b, c]) == Dfa(ACCEPT, (a % Room(GetRange(a)) * 64 + b % 64) * 64 + c % 64)
            else Run(d, [a, b, c]).state == REJECT
  {
    hide GetRange, Kind, Run, Room, Step;
    StepLead(d, a);
    StepMore(Step(d, a), b);
    StepMore(Step(Step(d, a), b), c);
    RunOne(d, a);
    RunTwo(d, a, b);
    RunThree(d, a, b, c);
  }

  lemma FourRun(d: Dfa, a: byte, b: byte, c: byte, e: byte)
    requires d.state == ACCEPT && Kind(a) in {5, 6, 11}
    ensures Run(d, [a]).state !in {ACCEPT, REJECT}
    ensures if GoodSecond(a, b) then Run(d, [a, b]).state !in {ACCEPT, REJECT} else Run(d, [a, b]).state == REJECT
    ensures if GoodSecond(a, b) && Kind(c) in {1, 7, 9} then Run(d, [a, b, c]).state !in {ACCEPT, REJECT}
            else Run(d, [a, b, c]).state == REJECT
    ensures if GoodSecond(a, b) && Kind(c) in {1, 7, 9} && Kind(e) in {1, 7, 9} then
              Run(d, [a, b, c, e]) == Dfa(ACCEPT, ((a % Room(GetRange(a)) * 64 + b % 64) * 64 + c % 64) * 64 + e % 64)
            else Run(d, [a, b, c, e]).state == REJECT
  {
    hide GetRange, Kind, Run, Room, Step;
    var d1 := Step(d, a);
    var d2 := Step(d1, b);
    var d3 := Step(d2, c);
    StepLead(d, a);
    StepMore(d1, b);
    StepMore(d2, c);
    StepMore(d3, e);
    RunOne(d, a);
    RunTwo(d, a, b);
    RunThree(d, a, b, c);
    RunFour(d, a, b, c, e);
  }

  /** The patterns the table allows are the encodings. */
  lemma ThreeEncodes(a: byte, b: byte, c: byte)
    requires Kind(a) in {3, 4, 10} && GoodSecond(a, b) && Kind(c) in {1, 7, 9}
    ensures var cp := (a % Room(GetRange(a)) * 64 + b % 64) * 64 + c % 64; Unicode(cp) && Encode(cp) == [a, b, c]
  {
    KindIsRange(a);
    KindIsRange(b);
    KindIsRange(c);
    hide GetRange, Kind, Encode, Room;
    ThreeBytes(a, b, c);
  }

  lemma FourEncodes(a: byte, b: byte, c: byte, e: byte)
    requires Kind(a) in {5, 6, 11} && GoodSecond(a, b) && Kind(c) in {1, 7, 9} && Kind(e) in {1, 7, 9}
    ensures var cp := ((a % Room(GetRange(a)) * 64 + b % 64) * 64 + c % 64) * 64 + e % 64;
            Unicode(cp) && Encode(cp) == [a, b, c, e]
  {
    KindIsRange(a);
    KindIsRange(b);
    KindIsRange(c);
    KindIsRange(e);
    hide GetRange, Kind, Encode, Room;
    FourBytes(a, b, c, e);
  }

  // ---------------------------------------------------------------- encodings are accepted

  /** The code point, from the bytes of its encoding. */
  function Value(s: bytes): int
    requires 1 <= |s| <= 4
  {
    var a: int := s[0];
    match |s|
    case 1 => a
    case 2 => (a - 0xC0) * 64 + Low(s[1])
    case 3 => (a - 0xE0) * 4096 + Low(s[1]) * 64 + Low(s[2])
    case _ => (a - 0xF0) * 262144 + Low(s[1]) * 4096 + Low(s[2]) * 64 + Low(s[3])
  }

  function Low(c: byte): int {
    c as int - 0x80
  }

  lemma EncodeValue(cp: nat)
    requires cp <= 0x10FFFF
    ensures Value(Encode(cp)) == cp
  {
    DivideTwice(cp);
  }

  lemma EncodeInjective(a: nat, b: nat)
    requires a <= 0x10FFFF && b <= 0x10FFFF && Encode(a) == Encode(b)
    ensures a == b
  {
    hide Encode, Value;
    EncodeValue(a);
    EncodeValue(b);
  }

  /** The encoding of a scalar value leads from accept to accept, with the code point at its last byte,
      and through neither accept nor reject before. */
  lemma EncodingRuns(d: Dfa, cp: Scalar)
    requires d.state == ACCEPT
    ensures Run(d, Encode(cp)) == Dfa(ACCEPT, cp)
    ensures forall k | 0 < k < |Encode(cp)| :: Run(d, Encode(cp)[..k]).state !in {ACCEPT, REJECT}
  {
    var s := Encode(cp);
    LeadOf(cp);
    EncodeValue(cp);
    forall i | 0 <= i < |s| { KindIsRange(s[i]); }
    match |s|
    case 1 => RunOne(d, s[0]); assert s == [s[0]];
    case 2 => TwoRuns(d, s, cp);
    case 3 => ThreeRuns(d, s, cp);
    case _ => FourRuns(d, s, cp);
  }

  lemma TwoRuns(d: Dfa, s: bytes, cp: Scalar)
    requires d.state == ACCEPT && s == Encode(cp) && |s| == 2 && Kind(s[0]) == 2 && Kind(s[1]) in {1, 7, 9}
    ensures Run(d, s) == Dfa(ACCEPT, cp)
    ensures forall k | 0 < k < |s| :: Run(d, s[..k]).state !in {ACCEPT, REJECT}
  {
    hide Run, Encode, Kind;
    TwoRun(d, s[0], s[1]);
    assert s == [s[0], s[1]] && s[..1] == [s[0]];
    EncodeInjective(cp, Run(d, s).codep);
  }

  lemma ThreeRuns(d: Dfa, s: bytes, cp: Scalar)
    requires d.state == ACCEPT && s == Encode(cp) && |s| == 3
    requires Kind(s[0]) in {3, 4, 10} && GoodSecond(s[0], s[1]) && Kind(s[2]) in {1, 7, 9}
    ensures Run(d, s) == Dfa(ACCEPT, cp)
    ensures forall k | 0 < k < |s| :: Run(d, s[..k]).state !in {ACCEPT, REJECT}
  {
    hide Run, Encode, Kind, GoodSecond, Room, GetRange;
    ThreeRun(d, s[0], s[1], s[2]);
    ThreeEncodes(s[0], s[1], s[2]);
    assert s == [s[0], s[1], s[2]] && s[..1] == [s[0]] && s[..2] == [s[0], s[1]];
    EncodeInjective(cp, Run(d, s).codep);
  }

  lemma FourRuns(d: Dfa, s: bytes, cp: Scalar)
    requires d.state == ACCEPT && s == Encode(cp) && |s| == 4
    requires Kind(s[0]) in {5, 6, 11} && GoodSecond(s[0], s[1]) && Kind(s[2]) in {1, 7, 9} && Kind(s[3]) in {1, 7, 9}
    ensures Run(d, s) == Dfa(ACCEPT, cp)
    ensures forall k | 0 < k < |s| :: Run(d, s[..k]).state !in {ACCEPT, REJECT}
  {
    hide Run, Encode, Kind, GoodSecond, Room, GetRange;
    FourRun(d, s[0], s[1], s[2], s[3]);
    FourEncodes(s[0], s[1], s[2], s[3]);
    assert s == [s[0], s[1], s[2], s[3]];
    assert s[..1] == [s[0]] && s[..2] == [s[0], s[1]] && s[..3] == [s[0], s[1], s[2]];
    EncodeInjective(cp, Run(d, s).codep);
  }

  /** A text of encodings is accepted, each code point standing in the machine after its last byte. */
  lemma {:induction false} EncodeAllRuns(d: Dfa, cps: seq<Scalar>)
    requires d.state == ACCEPT
    ensures Run(d, EncodeAll(cps)) == if cps == [] then d else Dfa(ACCEPT, cps[|cps| - 1])
    decreases |cps|
  {
    hide Encode;
    if cps != [] {
      EncodingRuns(d, cps[0]);
      RunConcat(d, Encode(cps[0]), EncodeAll(cps[1..]));
      hide Run;
      EncodeAllRuns(Dfa(ACCEPT, cps[0]), cps[1..]);
    }
  }

  // ---------------------------------------------------------------- nothing else is

  /** A run seen in two parts. */
  lemma Prefix(d: Dfa, s: bytes, k: nat)
    requires d.state < 9 && k <= |s|
    ensures Run(d, s) == Run(Run(d, s[..k]), s[k..])
    ensures Run(d, s[..k]).state == REJECT ==> Run(d, s).state == REJECT
    ensures k == |s| ==> Run(d, s[..k]) == Run(d, s)
  {
    hide Run;
    RunConcat(d, s[..k], s[k..]);
    assert s[..k] + s[k..] == s;
    if Run(d, s[..k]).state == REJECT {
      RejectStays(Run(d, s[..k]), s[k..]);
    }
    if k == |s| {
      assert s[..k] == s;
    }
  }

  /** An accepted text that is not empty starts with the encoding of a scalar value. */
  lemma FirstCharacter(d: Dfa, s: bytes) returns (k: nat, cp: Scalar)
    requires d.state == ACCEPT && s != [] && Run(d, s).state == ACCEPT
    ensures 0 < k <= |s| && s[..k] == Encode(cp) && Run(d, s) == Run(Dfa(ACCEPT, cp), s[k..])
  {
    Prefix(d, s, 1);
    RunOne(d, s[0]);
    assert s[..1] == [s[0]];
    if Kind(s[0]) == 0 {
      return 1, s[0];
    }
    assert Kind(s[0]) !in {1, 7, 8, 9};
    hide Run, Kind, Encode;
    k, cp := LongCharacter(d, s);
  }

  lemma LongCharacter(d: Dfa, s: bytes) returns (k: nat, cp: Scalar)
    requires d.state == ACCEPT && s != [] && Kind(s[0]) in {2, 3, 4, 5, 6, 10, 11}
    requires Run(d, s).state == ACCEPT
    ensures 0 < k <= |s| && s[..k] == Encode(cp) && Run(d, s) == Run(Dfa(ACCEPT, cp), s[k..])
  {
    hide Run, Encode, Kind, GoodSecond, Room, GetRange;
    var a := s[0];
    assert s[..1] == [a];
    Prefix(d, s, 1);
    var b := Peek(s, 1);
    var c := Peek(s, 2);
    var e := Peek(s, 3);
    if |s| > 1 { Prefix(d, s, 2); assert s[..2] == [a, b]; }
    if |s| > 2 { Prefix(d, s, 3); assert s[..3] == [a, b, c]; }
    if |s| > 3 { Prefix(d, s, 4); assert s[..4] == [a, b, c, e]; }
    if Kind(a) == 2 {
      TwoRun(d, a, b);
      k, cp := 2, Run(d, [a, b]).codep;
    } else if Kind(a) in {3, 4, 10} {
      ThreeRun(d, a, b, c);
      ThreeEncodes(a, b, c);
      k, cp := 3, Run(d, [a, b, c]).codep;
    } else {
      FourRun(d, a, b, c, e);
      FourEncodes(a, b, c, e);
      k, cp := 4, Run(d, [a, b, c, e]).codep;
    }
  }

  lemma {:induction false} Decoded(d: Dfa, s: bytes) returns (cps: seq<Scalar>)
    requires d.state == ACCEPT && Run(d, s).state == ACCEPT
    ensures s == EncodeAll(cps)
    decreases |s|
  {
    hide Run, Encode;
    if s == [] {
      return [];
    }
    var k, cp := FirstCharacter(d, s);
    var rest := Decoded(Dfa(ACCEPT, cp), s[k..]);
    cps := [cp] + rest;
    assert cps[1..] == rest;
    assert s == s[..k] + s[k..];
  }

  /** A text is well formed in the sense of section 4 of RFC 3629. */
  ghost predicate WellFormed(s: bytes) {
    exists cps: seq<Scalar> :: s == EncodeAll(cps)
  }

  /** The machine accepts exactly the concatenations of encodings of scalar values. */
  lemma AcceptsExactly(s: bytes)
    ensures Run(START, s).state == ACCEPT <==> WellFormed(s)
  {
    if Run(START, s).state == ACCEPT {
      var cps := Decoded(START, s);
    } else if WellFormed(s) {
      var cps: seq<Scalar> :| s == EncodeAll(cps);
      EncodeAllRuns(START, cps);
    }
  }

  // ---------------------------------------------------------------- the validator

  class Validator {
    var state: nat
    var codepoint: nat
    ghost var seen: bytes

    /** What was consumed since the start or the last reset put the machine where it is; after a reject
        only the state is kept exactly. */
    ghost predicate Valid()
      reads this
    {
      && state < 9
      && state == Run(START, seen).state
      && (state != REJECT ==> codepoint == Run(START, seen).codep)
    }

    constructor ()
      ensures Valid() && seen == []
    {
      state, codepoint, seen := ACCEPT, 0, [];
    }

    /** The next byte; false once the text so far cannot be the start of a well-formed one. */
    method Consume(c: byte) returns (ok: bool)
      requires Valid()
      modifies this
      ensures Valid() && seen == old(seen) + [c] && ok == (state != REJECT)
    {
      hide Kind, Next;
      RunConcat(START, seen, [c]);
      RunOne(Run(START, seen), c);
      RunOne(Dfa(state, codepoint), c);
      var kind := Kind(c);
      codepoint := if state != ACCEPT then (c % 64 + codepoint * 64) % 0x1_0000_0000 else c % Room(kind);
      state := Next(state, kind);
      seen := seen + [c];
      ok := state != REJECT;
      RejectRow(kind);
    }

    /** A chunk of the text, up to the first reject. */
    method Decode(chunk: bytes) returns (ok: bool)
      requires Valid()
      modifies this
      ensures Valid() && seen == old(seen) + chunk
      ensures !ok <==> chunk != [] && state == REJECT
    {
      ghost var before := seen;
      var i := 0;
      while i < |chunk|
        invariant 0 <= i <= |chunk| && Valid() && seen == before + chunk[..i]
        invariant i > 0 ==> state != REJECT
      {
        ok := Consume(chunk[i]);
        assert chunk[..i] + [chunk[i]] == chunk[..i + 1];
        if !ok {
          ghost var rest := chunk[i + 1..];
          RejectStays(Run(START, seen), rest);
          RunConcat(START, seen, rest);
          assert seen + rest == before + chunk;
          seen := before + chunk;
          return;
        }
        i := i + 1;
      }
      assert chunk[..i] == chunk;
      ok := true;
    }

    /** The text so far is well formed and complete. */
    method Complete() returns (ok: bool)
      requires Valid()
      ensures ok <==> WellFormed(seen)
    {
      AcceptsExactly(seen);
      ok := state == ACCEPT;
    }

    method Reset()
      modifies this
      ensures Valid() && seen == []
    {
      state, codepoint, seen := ACCEPT, 0, [];
    }
  }

  lemma RejectRow(kind: nat)
    requires kind < 12
    ensures Next(REJECT, kind) == REJECT
  {
  }

  /** A text given in any chunks is valid exactly when their concatenation is well formed. */
  method ValidateChunks(chunks: seq<bytes>) returns (ok: bool)
    ensures ok <==> WellFormed(Joined(chunks))
  {
    var v := new Validator();
    var i := 0;
    while i < |chunks|
      invariant 0 <= i <= |chunks| && v.Valid() && v.seen == Joined(chunks[..i]) && fresh(v)
    {
      ok := v.Decode(chunks[i]);
      assert chunks[..i + 1][..i] == chunks[..i];
      i := i + 1;
      if !ok {
        assert Joined(chunks[..i]) == v.seen;
        JoinedFrom(chunks, i);
        RejectStays(Run(START, v.seen), JoinedRest(chunks, i));
        RunConcat(START, v.seen, JoinedRest(chunks, i));
        AcceptsExactly(Joined(chunks));
        return;
      }
    }
    assert chunks[..i] == chunks;
    ok := v.Complete();
  }

  function Joined(chunks: seq<bytes>): bytes {
    if chunks == [] then [] else Joined(chunks[..|chunks| - 1]) + chunks[|chunks| - 1]
  }

  /** The chunks from i on. */
  function JoinedRest(chunks: seq<bytes>, i: nat): bytes
    requires i <= |chunks|
    decreases |chunks| - i
  {
    if i == |chunks| then [] else chunks[i] + JoinedRest(chunks, i + 1)
  }

  lemma {:induction false} JoinedFrom(chunks: seq<bytes>, i: nat)
    requires i <= |chunks|
    ensures Joined(chunks) == Joined(chunks[..i]) + JoinedRest(chunks, i)
    decreases |chunks| - i
  {
    if i == |chunks| {
      assert chunks[..i] == chunks;
      assert Joined(chunks) + [] == Joined(chunks);
    } else {
      JoinedFrom(chunks, i + 1);
      assert chunks[..i + 1][..i] == chunks[..i];
      assert Joined(chunks[..i]) + chunks[i] + JoinedRest(chunks, i + 1)
          == Joined(chunks[..i]) + (chunks[i] + JoinedRest(chunks, i + 1));
    }
  }

  /** The machine has just read its first whole character. */
  ghost predicate FirstAccept(s: bytes) {
    s != [] && Run(START, s).state == ACCEPT && forall j | 0 < j < |s| :: Run(START, s[..j]).state != ACCEPT
  }

  /** It first reaches accept exactly at the end of an encoding, and it holds the code point encoded. */
  lemma FirstAcceptEncodes(s: bytes)
    ensures FirstAccept(s) <==> exists cp: Scalar :: s == Encode(cp)
    ensures FirstAccept(s) ==> Unicode(Run(START, s).codep) && s == Encode(Run(START, s).codep)
  {
    hide Encode, Run;
    if FirstAccept(s) {
      var n, cp := FirstCharacter(START, s);
      EncodingRuns(START, cp);
      assert s[..n] == s;
    } else if cp: Scalar :| s == Encode(cp) {
      EncodingRuns(START, cp);
    }
  }

  /** The machine, started at p, first comes to accept n bytes on. */
  ghost predicate FirstAcceptAt(t: bytes, p: nat, n: nat) {
    p + n <= |t| && FirstAccept(t[p..p + n])
  }

  /** UTF8::Decode accepts at p exactly if the machine, started there, comes to accept; and then where the
      machine first does, with the same code point. */
  lemma DecodersAgree(t: bytes, p: nat)
    requires p < |t|
    ensures DecodeAt(t, p).ok <==> exists n: nat :: FirstAcceptAt(t, p, n)
    ensures forall n: nat | FirstAcceptAt(t, p, n) ::
              DecodeAt(t, p) == Tail(p + n, Run(START, t[p..p + n]).codep, true)
  {
    hide Encode, Run, FirstAccept, Switch, DecodeAt;
    DecodeAtIs(t, p);
    if DecodeAt(t, p).ok {
      var n := DecodeAt(t, p).next - p;
      FirstAcceptEncodes(t[p..p + n]);
      assert FirstAcceptAt(t, p, n);
    }
    forall n: nat | FirstAcceptAt(t, p, n)
      ensures DecodeAt(t, p) == Tail(p + n, Run(START, t[p..p + n]).codep, true)
    {
      FirstAcceptEncodes(t[p..p + n]);
      var cp: Scalar := Run(START, t[p..p + n]).codep;
      assert EncodedAt(t, p, cp);
      OneEncoding(t, p, DecodeAt(t, p).codepoint, cp);
    }
  }

  /** Two encodings that start at one place are the same. */
  lemma OneEncoding(t: bytes, p: nat, a: Scalar, b: Scalar)
    requires EncodedAt(t, p, a) && EncodedAt(t, p, b)
    ensures a == b
  {
    hide Encode;
    EncodeCarries(a);
    EncodeCarries(b);
    assert Encode(a)[0] == t[p..p + |Encode(a)|][0] == t[p] == t[p..p + |Encode(b)|][0] == Encode(b)[0];
    assert |Encode(a)| == |Encode(b)|;
  }
}
