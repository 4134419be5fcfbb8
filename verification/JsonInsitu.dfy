/** In-situ string parsing: the decoded string overwrites the text it was read from. */
module JsonInsitu {
  import opened Bytes
  import opened JsonEvents
  import opened JsonGrammar
  import opened JsonAlike

  /** A string reported, and where in the buffer it was left. */
  datatype Held = Held(at: nat, s: bytes)

  /** The strings among the events. */
  function Strings(log: seq<Event>): seq<bytes> {
    if log == [] then [] else Strings(log[..|log| - 1]) + Spoken(log[|log| - 1])
  }

  function Spoken(e: Event): seq<bytes> {
    match e
    case Key(name) => [name]
    case String(s) => [s]
    case _ => []
  }

  lemma StringsMore(log: seq<Event>, e: Event)
    ensures Strings(log + [e]) == Strings(log) + Spoken(e)
  {
    assert (log + [e])[..|log|] == log;
  }

  function Texts(held: seq<Held>): (ss: seq<bytes>)
    ensures |ss| == |held|
  {
    seq(|held|, i requires 0 <= i < |held| => held[i].s)
  }

  /** The string stands in the buffer b, terminated. */
  predicate Stands(b: bytes, x: Held) {
    x.at + |x.s| < |b| && b[x.at..x.at + |x.s|] == x.s && b[x.at + |x.s|] == NUL
  }

  predicate AllStand(b: bytes, held: seq<Held>) {
    forall k | 0 <= k < |held| :: Stands(b, held[k])
  }

  predicate AllBehind(held: seq<Held>, p: nat) {
    forall k | 0 <= k < |held| :: held[k].at + |held[k].s| < p
  }

  lemma SameSlice(a: bytes, b: bytes, lo: nat, hi: nat)
    requires lo <= hi <= |a| && hi <= |b| && forall i | lo <= i < hi :: a[i] == b[i]
    ensures a[lo..hi] == b[lo..hi]
  {
  }

  /** A piece written behind what stands from head on. */
  lemma PieceWritten(was: bytes, now: bytes, head: nat, to: nat, out: bytes, more: bytes)
    requires |was| == |now| && head <= to && to + |more| <= |was| && was[head..to] == out
    requires forall i | 0 <= i < |more| :: now[to + i] == more[i]
    requires forall i | head <= i < to :: now[i] == was[i]
    ensures now[head..to + |more|] == out + more
  {
    SameSlice(was, now, head, to);
    assert now[head..to + |more|] == now[head..to] + now[to..to + |more|];
  }

  /** Strings that end before head are not touched by writing from head on. */
  lemma StillStand(a: bytes, b: bytes, held: seq<Held>, head: nat)
    requires AllStand(a, held) && AllBehind(held, head) && head <= |a| == |b|
    requires forall i | 0 <= i < head :: a[i] == b[i]
    ensures AllStand(b, held)
  {
    forall k | 0 <= k < |held| ensures Stands(b, held[k]) {
      var x := held[k];
      var end := x.at + |x.s|;
      assert Stands(a, x) && end < head;
      SameSlice(a, b, x.at, end);
    }
  }

  /** A string just written at head joins them. */
  lemma OneMoreStands(b: bytes, held: seq<Held>, head: nat, s: bytes, p: nat)
    requires AllStand(b, held) && AllBehind(held, head) && head + |s| < |b| && head + |s| < p
    requires b[head..head + |s| + 1] == s + [NUL]
    ensures AllStand(b, held + [Held(head, s)]) && AllBehind(held + [Held(head, s)], p)
    ensures Texts(held + [Held(head, s)]) == Texts(held) + [s]
  {
    var w := b[head..head + |s| + 1];
    assert b[head..head + |s|] == w[..|s|] == s;
    assert b[head + |s|] == w[|s|];
  }

  /** A reader over GenericInsituStringStream: src reads and dst writes the same NUL-terminated buffer. */
  class InsituReader {
    const buf: array<byte>
    const handler: Handler
    var src: nat
    var dst: nat
    var status: Status
    var log: seq<Event>
    ghost var held: seq<Held>

    constructor (buf: array<byte>, handler: Handler)
      ensures this.buf == buf && this.handler == handler
      ensures src == 0 && dst == 0 && status == Good && log == [] && held == []
    {
      this.buf, this.handler := buf, handler;
      src, dst, status, log, held := 0, 0, Good, [], [];
    }

    /** The buffer ends in its terminator, and writing stays strictly behind reading. */
    ghost predicate Valid()
      reads this, buf
    {
      && buf.Length > 0
      && buf[buf.Length - 1] == NUL
      && dst < src <= buf.Length
      && status.Good?
    }

    /** From the read cursor on, the buffer still holds the text t it held at first. */
    ghost predicate Ahead(t: bytes)
      reads this, buf
    {
      && |t| == buf.Length > 0
      && t[|t| - 1] == NUL
      && forall i | src <= i < buf.Length :: buf[i] == t[i]
    }

    /** Exactly the bytes out were written, at the write cursor. */
    twostate predicate Written(out: bytes)
      reads this, buf
    {
      && dst == old(dst) + |out| <= buf.Length
      && (forall i | 0 <= i < |out| :: buf[old(dst) + i] == out[i])
      && (forall i | 0 <= i < buf.Length && !(old(dst) <= i < dst) :: buf[i] == old(buf[i]))
    }

    method Put(c: byte)
      requires dst < buf.Length
      modifies `dst, buf
      ensures Written([c])
    {
      buf[dst] := c;
      dst := dst + 1;
    }

    /** UTF8::Encode into the buffer. */
    method Encode(codepoint: nat)
      requires codepoint <= 0x10FFFF && dst + |Utf8.Encode(codepoint)| <= buf.Length
      modifies `dst, buf
      ensures Written(Utf8.Encode(codepoint))
    {
      var s := Utf8.Encode(codepoint);
      var i := 0;
      while i < |s|
        invariant 0 <= i <= |s| && dst == old(dst) + i
        invariant forall k | 0 <= k < i :: buf[old(dst) + k] == s[k]
        invariant forall k | 0 <= k < buf.Length && !(old(dst) <= k < dst) :: buf[k] == old(buf[k])
      {
        buf[dst] := s[i];
        dst := dst + 1;
        i := i + 1;
      }
    }

    method ParseHex4(ghost t: bytes) returns (codepoint: nat)
      requires Valid() && Ahead(t) && src < buf.Length
      modifies `src, `status
      ensures match Hex4(t, old(src), 0, 0)
              case HexOk(cp) => status.Good? && codepoint == cp && src == old(src) + 4 < buf.Length
              case HexBad(at) => status == Bad(StringUnicodeEscapeInvalidHex, at) && src == at + 1
    {
      hide Hex4, Hex4Range;
      Hex4Ends(t, src);
      codepoint := 0;
      var i := 0;
      while i < 4
        invariant 0 <= i <= 4 && src == old(src) + i < buf.Length && status.Good?
        invariant codepoint < Hex4Range(i)
        invariant Hex4(t, src, i, codepoint) == Hex4(t, old(src), 0, 0)
      {
        Hex4Step(t, src, i, codepoint);
        var c := buf[src];
        assert c == Peek(t, src);
        src := src + 1;
        if HexDigit(c) < 0 {
          status := Bad(StringUnicodeEscapeInvalidHex, src - 1);
          return 0;
        }
        codepoint := codepoint * 16 + HexDigit(c);
        i := i + 1;
      }
      Hex4Ends(t, src);
    }

    /** The \uXXXX that must follow a lead surrogate: the code point of the pair. */
    method ParseTrail(ghost t: bytes, lead: nat) returns (codepoint: nat)
      requires Valid() && Ahead(t) && src < buf.Length && 0xD800 <= lead <= 0xDBFF
      modifies `src, `status
      ensures match TrailEscape(t, old(src), lead)
              case Close(_) => false
              case Piece(q, out) =>
                status.Good? && src == q < buf.Length && codepoint <= 0x10FFFF && out == Utf8.Encode(codepoint)
              case Broken(q, code, offset) => status == Bad(code, offset) && src == q
    {
      codepoint := 0;
      var escaped := buf[src] == BACKSLASH;
      src := src + 1;
      if escaped {
        escaped := buf[src] == LOWER_U;
        src := src + 1;
      }
      if !escaped {
        status := Bad(StringUnicodeSurrogateInvalid, src - 2);
        return;
      }
      var codepoint2 := ParseHex4(t);
      if status.Bad? {
        return;
      }
      if codepoint2 < 0xDC00 || codepoint2 > 0xDFFF {
        status := Bad(StringUnicodeSurrogateInvalid, src - 2);
        return;
      }
      codepoint := SurrogatePair(lead, codepoint2);
    }

    /** What one turn of the string loop leaves: bytes written behind the cursor, or an error. */
    twostate predicate Scanned(u: Unit)
      reads this, buf
    {
      match u
      case Close(q) => status.Good? && src == q && Written([NUL])
      case Piece(q, out) => status.Good? && src == q && Written(out)
      case Broken(q, code, offset) => status == Bad(code, offset) && src == q && Written([])
    }

    method ParseEscape(ghost t: bytes)
      requires Valid() && Ahead(t) && src < buf.Length && buf[src] == BACKSLASH
      modifies `src, `dst, `status, buf
      ensures Scanned(JsonGrammar.Escape(t, old(src)))
      ensures status.Good? ==> src < buf.Length
    {
      hide Hex4, TrailEscape, Utf8.Encode;
      ghost var u := JsonGrammar.Escape(t, src);
      src := src + 1;
      var e := buf[src];
      src := src + 1;
      if ShortEscape(e) != 0 {
        Put(ShortEscape(e));
      } else if e == LOWER_U {
        var codepoint := ParseHex4(t);
        if status.Bad? {
          return;
        }
        if 0xD800 <= codepoint <= 0xDBFF {
          codepoint := ParseTrail(t, codepoint);
          if status.Bad? {
            return;
          }
        }
        assert u == Piece(src, Utf8.Encode(codepoint));
        Encode(codepoint);
      } else {
        status := Bad(StringEscapeInvalid, src - 1);
      }
    }

    method ParseUnit(ghost t: bytes) returns (done: bool)
      requires Valid() && Ahead(t) && src < buf.Length
      modifies `src, `dst, `status, buf
      ensures Scanned(NextUnit(t, old(src)))
      ensures done == NextUnit(t, old(src)).Close?
      ensures status.Good? && !done ==> src < buf.Length
    {
      done := false;
      var c := buf[src];
      if c == BACKSLASH {
        ParseEscape(t);
      } else if c == QUOTE {
        src := src + 1;
        Put(NUL);
        done := true;
      } else if c == NUL {
        status := Bad(StringMissQuotationMark, src - 1);
      } else if c < 0x20 {
        status := Bad(StringEscapeInvalid, src - 1);
      } else {
        src := src + 1;
        Put(c);
      }
    }

    /** Bytes outside the range [from, to) are as they were. */
    twostate predicate Untouched(from: nat, to: nat)
      reads buf
    {
      forall i | 0 <= i < buf.Length && !(from <= i < to) :: buf[i] == old(buf[i])
    }

    /** A unit put behind the bytes out of its string, which stand from head on. */
    method AddUnit(ghost t: bytes, ghost head: nat, ghost out: bytes) returns (done: bool)
      requires Ahead(t) && head <= dst < src < buf.Length && status.Good? && buf[head..dst] == out
      modifies `src, `dst, `status, buf
      ensures Ahead(t) && old(dst) <= dst < src && Untouched(old(dst), dst)
      ensures match NextUnit(t, old(src))
              case Close(q) => status.Good? && done && src == q && buf[head..dst] == out + [NUL]
              case Piece(q, more) =>
                status.Good? && !done && src == q < buf.Length && buf[head..dst] == out + more
              case Broken(q, code, offset) => status == Bad(code, offset) && !done && src == q && dst == old(dst)
    {
      hide NextUnit;
      ghost var was, at, to := buf[..], src, dst;
      done := ParseUnit(t);
      if status.Good? {
        PieceWritten(was, buf[..], head, to, out, if done then [NUL] else NextUnit(t, at).out);
      }
    }

    /** The string whose opening quote is at both cursors, decoded over itself. */
    method ParseStringToStream(ghost t: bytes)
      requires Ahead(t) && status.Good? && dst == src < buf.Length && buf[src] == QUOTE
      modifies `src, `dst, `status, buf
      ensures Untouched(old(src), dst) && old(src) <= dst < src && Ahead(t)
      ensures match Body(t, old(src) + 1)
              case Closed(q, s) =>
                status.Good? && src == q && dst == old(src) + |s| + 1 && buf[old(src)..dst] == s + [NUL]
              case Refused(q, code, offset) => status == Bad(code, offset) && src == q
    {
      hide Body, NextUnit;
      ghost var head := src;
      ghost var out: bytes := [];
      src := src + 1;
      assert Prepend(out, Body(t, src)) == Body(t, src);
      hide Prepend;
      var done := false;
      while !done
        invariant Ahead(t) && head <= dst < src <= buf.Length && status.Good?
        invariant Untouched(head, dst)
        invariant !done ==> buf[head..dst] == out && src < buf.Length
        invariant !done ==> Body(t, head + 1) == Prepend(out, Body(t, src))
        invariant done ==> buf[head..dst] == out + [NUL] && Body(t, head + 1) == Closed(src, out)
        decreases !done, buf.Length - src
      {
        BodyStep(t, src, out);
        ghost var at := src;
        done := AddUnit(t, head, out);
        if status.Bad? {
          return;
        }
        if !done {
          out := out + NextUnit(t, at).out;
        }
      }
    }

    /** What the copying parser does, but the string stays in the buffer: terminated, at the place
        of its opening quote, and short enough that no byte after it was touched. */
    method ParseString(ghost t: bytes, isKey: bool)
      requires Ahead(t) && status.Good? && src < buf.Length && buf[src] == QUOTE
      modifies `src, `dst, `status, `log, buf
      ensures Progress(src, log, status) == JsonGrammar.ParseString(t, old(src), old(log), handler, isKey)
      ensures Untouched(old(src), dst) && old(src) <= dst < src && Ahead(t)
      ensures match Body(t, old(src) + 1)
              case Closed(_, s) => dst == old(src) + |s| + 1 && buf[old(src)..dst] == s + [NUL]
              case Refused(_, _, _) => status.Bad?
    {
      ghost var head := src;
      dst := src;
      var begin := dst;
      ParseStringToStream(t);
      if status.Bad? {
        return;
      }
      var length := dst - begin - 1;
      var s := buf[begin..begin + length];
      assert buf[head..dst][..length] == s;
      log := log + [if isKey then Key(s) else String(s)];
      if !handler(log) {
        status := Bad(Termination, src);
      }
    }

    // -------------------------------------------------------------- whole documents

    ghost function Now(): Progress
      reads this
    {
      Progress(src, log, status)
    }

    /** The terminator stands, and ahead of the cursor the text u is untouched. */
    ghost predicate Over(u: bytes)
      reads this, buf
    {
      status.Good? ==> Alike(buf[..], u, src)
    }

    /** Every string reported so far stands in the buffer, terminated, behind the cursor. */
    ghost predicate Standing()
      reads this, buf
    {
      && Strings(log) == Texts(held)
      && AllStand(buf[..], held)
      && (status.Good? ==> AllBehind(held, src))
    }

    method Cur(ghost u: bytes) returns (c: byte)
      requires status.Good? && Over(u)
      ensures c == Peek(u, src)
    {
      c := buf[src];
      assert c == buf[..][src];
    }

    method Take(ghost u: bytes) returns (c: byte)
      requires status.Good? && Over(u) && Standing()
      modifies `src
      ensures c == Peek(u, old(src)) && src == old(src) + 1 && Standing()
      ensures c != NUL ==> src <= |u| && Over(u)
    {
      c := buf[src];
      assert c == buf[..][src];
      src := src + 1;
    }

    method Refuse(ghost u: bytes, code: ErrorCode)
      requires status.Good? && Standing()
      modifies `status
      ensures Now() == Fail(old(src), old(log), code, old(src)) && Over(u) && Standing()
    {
      status := Bad(code, src);
    }

    method SkipWhitespace(ghost u: bytes)
      requires Over(u) && Standing() && status.Good?
      modifies `src
      ensures src == SkipSpace(u, old(src)) <= |u| && Over(u) && Standing()
    {
      while IsSpace(buf[src])
        invariant Over(u) && old(src) <= src && SkipSpace(u, src) == SkipSpace(u, old(src))
        decreases |u| - src
      {
        assert buf[..][src] == buf[src];
        src := src + 1;
      }
      assert buf[..][src] == buf[src];
    }

    /** A handler call for an event without a string. */
    method Report(ghost u: bytes, e: Event)
      requires status.Good? && Over(u) && Standing() && Spoken(e) == []
      modifies `log, `status
      ensures Now() == Emit(handler, src, old(log), e, src) && Over(u) && Standing()
    {
      hide Alike;
      StringsMore(log, e);
      assert Strings(log) + [] == Strings(log);
      log := log + [e];
      if !handler(log) {
        status := Bad(Termination, src);
      }
    }

    /** A string decoded in place; those reported before it are not touched. */
    method ParseText(ghost u: bytes, isKey: bool)
      requires status.Good? && Over(u) && Standing() && src < |u| && u[src] == QUOTE
      modifies this, buf
      ensures Now() == JsonGrammar.ParseString(u, old(src), old(log), handler, isKey)
      ensures Over(u) && Standing()
    {
      hide Body, Stands, AllStand, AllBehind, Texts, Strings;
      ghost var t, head, was := buf[..], src, log;
      assert buf[src] == t[src] == u[src];
      StringAlike(t, u, src, log, handler, isKey);
      ParseString(t, isKey);
      StillStand(t, buf[..], held, head);
      ghost var b := Body(u, head + 1);
      if b.Closed? {
        assert buf[..][head..head + |b.s| + 1] == buf[head..dst];
        OneMoreStands(buf[..], held, head, b.s, src);
        held := held + [Held(head, b.s)];
        StringsMore(was, if isKey then Key(b.s) else String(b.s));
      }
    }

    /** Words and numbers are only read: the scanners see the buffer as it stands. */
    method ParsePlain(ghost u: bytes)
      requires status.Good? && Over(u) && Standing() && Peek(u, src) != QUOTE
      modifies `src, `log, `status
      ensures Now() == JsonGrammar.ParseScalar(u, old(src), old(log), handler)
      ensures Over(u) && Standing()
    {
      hide JsonGrammar.ParseScalar, Strings;
      ScalarAlike(buf[..], u, src, log, handler);
      PeekAlike(buf[..], u, src, src);
      var r := JsonGrammar.ParseScalar(buf[..], src, log, handler);
      PlainHeard(buf[..], src, log, handler);
      src, log, status := r.pos, r.log, r.status;
    }

    method ParseValue(ghost u: bytes)
      requires status.Good? && Over(u) && Standing() && src <= |u|
      modifies this, buf
      ensures Now() == JsonGrammar.ParseValue(u, old(src), old(log), handler)
      ensures Over(u) && Standing()
      decreases |u| - src, 1
    {
      hide Over, Standing, JsonGrammar.ParseArray, JsonGrammar.ParseObject, JsonGrammar.ParseNumber, ParseWord;
      var c := Cur(u);
      if c == LBRACE {
        ParseObject(u);
      } else if c == LBRACKET {
        ParseArray(u);
      } else if c == QUOTE {
        ParseText(u, false);
      } else {
        ParsePlain(u);
      }
    }

    method ParseArray(ghost u: bytes)
      requires status.Good? && Over(u) && Standing() && src < |u| && u[src] == LBRACKET
      modifies this, buf
      ensures Now() == JsonGrammar.ParseArray(u, old(src), old(log), handler)
      ensures Over(u) && Standing()
      decreases |u| - src, 0
    {
      hide Over, Standing, JsonGrammar.Elements;
      var c := Take(u);
      Report(u, StartArray);
      if status.Bad? {
        return;
      }
      SkipWhitespace(u);
      c := Cur(u);
      if c == RBRACKET {
        c := Take(u);
        Report(u, EndArray(0));
        return;
      }
      ParseElements(u);
    }

    method ParseElements(ghost u: bytes)
      requires status.Good? && Over(u) && Standing() && src <= |u|
      modifies this, buf
      ensures Now() == Elements(u, old(src), old(log), handler, 0)
      ensures Over(u) && Standing()
      decreases |u| - src, 3
    {
      hide Over, Standing, JsonGrammar.ParseValue, AfterKey, AfterMember;
      var elementCount := 0;
      while true
        invariant status.Good? && Over(u) && Standing() && old(src) <= src <= |u|
        invariant Elements(u, old(src), old(log), handler, 0) == Elements(u, src, log, handler, elementCount)
        decreases |u| - src
      {
        ParseValue(u);
        if status.Bad? {
          return;
        }
        elementCount := elementCount + 1;
        SkipWhitespace(u);
        var c := Take(u);
        if c == COMMA {
          SkipWhitespace(u);
        } else if c == RBRACKET {
          Report(u, EndArray(elementCount));
          return;
        } else {
          Refuse(u, ArrayMissCommaOrSquareBracket);
          return;
        }
      }
    }

    /** Name, colon and value of the member at the cursor, n members being complete. */
    method ParseMember(ghost u: bytes, ghost n: nat)
      requires status.Good? && Over(u) && Standing() && src <= |u|
      modifies this, buf
      ensures Over(u) && Standing() && (status.Good? ==> old(src) < src <= |u|)
      ensures Members(u, old(src), old(log), handler, n)
           == if status.Good? then AfterMember(u, src, log, handler, n) else Now()
      decreases |u| - src, 2
    {
      hide Over, Standing, JsonGrammar.ParseValue, JsonGrammar.ParseString, AfterMember;
      var c := Cur(u);
      if c != QUOTE {
        Refuse(u, ObjectMissName);
        return;
      }
      ParseText(u, true);
      if status.Bad? {
        return;
      }
      assert Members(u, old(src), old(log), handler, n) == AfterKey(u, src, log, handler, n);
      SkipWhitespace(u);
      c := Take(u);
      if c != COLON {
        Refuse(u, ObjectMissColon);
        return;
      }
      SkipWhitespace(u);
      assert Members(u, old(src), old(log), handler, n) == JsonGrammar.MemberValue(u, src, log, handler, n);
      ParseValue(u);
    }

    method ParseObject(ghost u: bytes)
      requires status.Good? && Over(u) && Standing() && src < |u| && u[src] == LBRACE
      modifies this, buf
      ensures Now() == JsonGrammar.ParseObject(u, old(src), old(log), handler)
      ensures Over(u) && Standing()
      decreases |u| - src, 0
    {
      hide Over, Standing, JsonGrammar.Members;
      var c := Take(u);
      Report(u, StartObject);
      if status.Bad? {
        return;
      }
      SkipWhitespace(u);
      c := Cur(u);
      if c == RBRACE {
        c := Take(u);
        Report(u, EndObject(0));
        return;
      }
      ParseMembers(u);
    }

    method ParseMembers(ghost u: bytes)
      requires status.Good? && Over(u) && Standing() && src <= |u|
      modifies this, buf
      ensures Now() == Members(u, old(src), old(log), handler, 0)
      ensures Over(u) && Standing()
      decreases |u| - src, 3
    {
      hide Over, Standing, JsonGrammar.ParseValue, JsonGrammar.ParseString, AfterKey, AfterElement;
      var memberCount := 0;
      while true
        invariant status.Good? && Over(u) && Standing() && old(src) <= src <= |u|
        invariant Members(u, old(src), old(log), handler, 0) == Members(u, src, log, handler, memberCount)
        decreases |u| - src
      {
        ParseMember(u, memberCount);
        if status.Bad? {
          return;
        }
        SkipWhitespace(u);
        memberCount := memberCount + 1;
        var c := Take(u);
        if c == COMMA {
          SkipWhitespace(u);
        } else if c == RBRACE {
          Report(u, EndObject(memberCount));
          return;
        } else {
          Refuse(u, ObjectMissCommaOrCurlyBracket);
          return;
        }
      }
    }

    /** Parse with kParseInsituFlag, from wherever the stream stands and whatever strings were left in it: the
        events and the verdict of the copying parser, with every string it reported left in the buffer. */
    method ParseInsitu(stopWhenDone: bool, ghost u: bytes)
      requires Alike(buf[..], u, src) && Strings(log) == Texts(held)
      requires AllStand(buf[..], held) && AllBehind(held, src)
      modifies this, buf
      ensures Now() == ParseFrom(u, old(src), old(log), handler, stopWhenDone)
      ensures Standing() && Over(u)
    {
      hide JsonGrammar.ParseValue;
      status := Good;
      SkipWhitespace(u);
      var c := Cur(u);
      if c == NUL {
        Refuse(u, DocumentEmpty);
        return;
      }
      hide Over, Standing;
      ParseValue(u);
      if status.Good? && !stopWhenDone {
        SkipWhitespace(u);
        c := Cur(u);
        if c != NUL {
          Refuse(u, DocumentRootNotSingular);
        }
      }
    }
  }

  /** A scalar other than a string reports at most one event, and no string. */
  lemma PlainHeard(t: bytes, p: nat, log: seq<Event>, h: Handler)
    requires p <= |t| && Peek(t, p) != QUOTE
    ensures Strings(ParseScalar(t, p, log, h).log) == Strings(log)
  {
    hide Word, BigDigits, Fraction, Exponent, IntegerEnd, ValueOf, Strings;
    var r := ParseScalar(t, p, log, h);
    if r.log != log {
      var e := r.log[|log|];
      assert r.log == log + [e];
      StringsMore(log, e);
    }
  }
}
