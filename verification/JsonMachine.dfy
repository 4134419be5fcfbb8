/** The table-driven reader: tokens, the prediction table, the transition function over an explicit
    stack, and the proof that a run of it reports what the recursive reader reports. */
module JsonMachine {
  import opened Bytes
  import opened JsonEvents
  import opened JsonGrammar

  datatype State =
    | Start | Finish | Error
    | ObjectInitial | MemberKey | KeyValueDelimiter | MemberValue | MemberDelimiter | ObjectFinish
    | ArrayInitial | Element | ElementDelimiter | ArrayFinish
    | SingleValue

  datatype Token =
    | LeftBracket | RightBracket | LeftCurlyBracket | RightCurlyBracket
    | CommaToken | ColonToken
    | StringToken | FalseToken | TrueToken | NullToken | NumberToken

  function Tokenize(c: byte): Token {
    if c == QUOTE then StringToken
    else if c == COMMA then CommaToken
    else if c == COLON then ColonToken
    else if c == LBRACKET then LeftBracket
    else if c == RBRACKET then RightBracket
    else if c == LOWER_F then FalseToken
    else if c == LOWER_N then NullToken
    else if c == LOWER_T then TrueToken
    else if c == LBRACE then LeftCurlyBracket
    else if c == RBRACE then RightCurlyBracket
    else NumberToken
  }

  predicate IsScalar(k: Token) {
    k.StringToken? || k.FalseToken? || k.TrueToken? || k.NullToken? || k.NumberToken?
  }

  /** Where a value leads whose non-compound form leads to s. */
  function OnValue(k: Token, s: State): State {
    if k.LeftBracket? then ArrayInitial
    else if k.LeftCurlyBracket? then ObjectInitial
    else if IsScalar(k) then s
    else Error
  }

  /** The table G: current state and lookahead token to the state to enter. */
  function Predict(s: State, k: Token): State {
    match s
    case Start => OnValue(k, SingleValue)
    case ObjectInitial =>
      if k.RightCurlyBracket? then ObjectFinish else if k.StringToken? then MemberKey else Error
    case MemberKey => if k.ColonToken? then KeyValueDelimiter else Error
    case KeyValueDelimiter => OnValue(k, MemberValue)
    case MemberValue =>
      if k.RightCurlyBracket? then ObjectFinish else if k.CommaToken? then MemberDelimiter else Error
    case MemberDelimiter => if k.StringToken? then MemberKey else Error
    case ArrayInitial => if k.RightBracket? then ArrayFinish else OnValue(k, Element)
    case Element =>
      if k.RightBracket? then ArrayFinish else if k.CommaToken? then ElementDelimiter else Error
    case ElementDelimiter => OnValue(k, Element)
    case _ => Error
  }

  /** What is pushed for an open container: the state to return to and the values counted so far. */
  datatype Frame = Frame(ret: State, count: nat)

  datatype Machine = Machine(state: State, frames: seq<Frame>, at: Progress)

  predicate InArray(s: State) {
    s.ArrayInitial? || s.Element? || s.ElementDelimiter?
  }

  predicate InObject(s: State) {
    s.ObjectInitial? || s.MemberKey? || s.KeyValueDelimiter? || s.MemberValue? || s.MemberDelimiter?
  }

  function Top(frames: seq<Frame>): Frame
    requires frames != []
  {
    frames[|frames| - 1]
  }

  function Below(frames: seq<Frame>): seq<Frame>
    requires frames != []
  {
    frames[..|frames| - 1]
  }

  /** The stack mirrors the open containers: one frame each, holding how the container below goes on. */
  predicate Mirrors(s: State, frames: seq<Frame>)
    decreases |frames|
  {
    if frames == [] then s.Start? || s.Finish?
    else
      && (InArray(s) || InObject(s))
      && (s.ArrayInitial? || s.ObjectInitial? ==> Top(frames).count == 0)
      && (Top(frames).ret.Start? || Top(frames).ret.Element? || Top(frames).ret.MemberValue?)
      && Mirrors(Top(frames).ret, Below(frames))
  }

  predicate Ready(t: bytes, m: Machine) {
    && Mirrors(m.state, m.frames)
    && m.at.status.Good?
    && m.at.pos <= |t|
  }

  /** The state pushed when a container opens in state s. */
  function Resumption(s: State): State {
    if s.ArrayInitial? || s.ElementDelimiter? then Element
    else if s.KeyValueDelimiter? then MemberValue
    else s
  }

  /** The state a finished container leaves behind: the root container finishes the text. */
  function Landing(ret: State): State {
    if ret.Start? then Finish else ret
  }

  function Step(p: Progress): Progress {
    p.(pos := p.pos + 1)
  }

  /** Enter s if p goes on, else the error state. */
  function Enter(s: State, frames: seq<Frame>, p: Progress): Machine {
    Machine(if p.status.Good? then s else Error, frames, p)
  }

  lemma MirrorsPush(s: State, frames: seq<Frame>, dst: State)
    requires dst.ObjectInitial? || dst.ArrayInitial?
    requires s.Start? || s.ArrayInitial? || s.ElementDelimiter? || s.KeyValueDelimiter?
    requires Mirrors(s, frames)
    ensures Mirrors(dst, frames + [Frame(Resumption(s), 0)])
  {
    var ret := Resumption(s);
    assert Mirrors(ret, frames);
    assert Below(frames + [Frame(ret, 0)]) == frames && Top(frames + [Frame(ret, 0)]) == Frame(ret, 0);
  }

  /** A bracket opens a container, to be resumed in the state pushed. */
  function TransitOpen(h: Handler, m: Machine, dst: State): (m': Machine)
    requires dst.ObjectInitial? || dst.ArrayInitial?
    requires m.state.Start? || m.state.ArrayInitial? || m.state.ElementDelimiter? || m.state.KeyValueDelimiter?
    requires Mirrors(m.state, m.frames)
    ensures !m'.state.Error? ==> Mirrors(m'.state, m'.frames) && m'.at.pos == m.at.pos + 1 && m'.at.status.Good?
  {
    var at := m.at;
    MirrorsPush(m.state, m.frames, dst);
    var e := Emit(h, at.pos, at.log, if dst.ObjectInitial? then StartObject else StartArray, at.pos);
    Enter(dst, m.frames + [Frame(Resumption(m.state), 0)], if e.status.Good? then Step(e) else e)
  }

  /** A comma counts the value before it. */
  function TransitComma(m: Machine, dst: State): (m': Machine)
    requires (dst.MemberDelimiter? && m.state.MemberValue?) || (dst.ElementDelimiter? && m.state.Element?)
    requires Mirrors(m.state, m.frames)
    ensures !m'.state.Error? ==> Mirrors(m'.state, m'.frames)
  {
    Enter(dst, Below(m.frames) + [Top(m.frames).(count := Top(m.frames).count + 1)], Step(m.at))
  }

  /** A bracket closes the container on top, counting the value before it. */
  function TransitClose(h: Handler, m: Machine, dst: State): (m': Machine)
    requires dst.ObjectFinish? ==> m.state.MemberValue? || m.state.ObjectInitial?
    requires dst.ArrayFinish? ==> m.state.Element? || m.state.ArrayInitial?
    requires dst.ObjectFinish? || dst.ArrayFinish?
    requires Mirrors(m.state, m.frames)
    ensures !m'.state.Error? ==> Mirrors(m'.state, m'.frames) && m'.at.pos == m.at.pos + 1 && m'.at.status.Good?
  {
    var at := m.at;
    assert Mirrors(Top(m.frames).ret, Below(m.frames));
    var c := Top(m.frames).count + if m.state.MemberValue? || m.state.Element? then 1 else 0;
    var e := Emit(h, at.pos, at.log, if dst.ObjectFinish? then EndObject(c) else EndArray(c), at.pos);
    Enter(Landing(Top(m.frames).ret), Below(m.frames), if e.status.Good? then Step(e) else e)
  }

  /** Advance by the lookahead token: m.state is the source state and dst the predicted one. */
  function Transit(t: bytes, h: Handler, m: Machine, dst: State): (m': Machine)
    requires Ready(t, m) && Peek(t, m.at.pos) != NUL
    requires dst == Predict(m.state, Tokenize(Peek(t, m.at.pos)))
    ensures !m'.state.Error? ==> Ready(t, m') && m.at.pos < m'.at.pos
  {
    var at := m.at;
    match dst
    case ObjectInitial => TransitOpen(h, m, dst)
    case ArrayInitial => TransitOpen(h, m, dst)
    case MemberKey => Enter(dst, m.frames, ParseString(t, at.pos, at.log, h, true))
    case KeyValueDelimiter => Enter(dst, m.frames, Step(at))
    case MemberValue => Enter(dst, m.frames, ParseValue(t, at.pos, at.log, h))
    case Element => Enter(dst, m.frames, ParseValue(t, at.pos, at.log, h))
    case MemberDelimiter => TransitComma(m, dst)
    case ElementDelimiter => TransitComma(m, dst)
    case ObjectFinish => TransitClose(h, m, dst)
    case ArrayFinish => TransitClose(h, m, dst)
    case SingleValue => Enter(Finish, m.frames, ParseValue(t, at.pos, at.log, h))
    case _ => Machine(Error, m.frames, at)
  }

  function Next(t: bytes, h: Handler, m: Machine): Machine
    requires Ready(t, m) && Peek(t, m.at.pos) != NUL
  {
    Transit(t, h, m, Predict(m.state, Tokenize(Peek(t, m.at.pos))))
  }

  function SyntaxError(s: State): ErrorCode {
    match s
    case Start => DocumentEmpty
    case Finish => DocumentRootNotSingular
    case ObjectInitial => ObjectMissName
    case MemberDelimiter => ObjectMissName
    case MemberKey => ObjectMissColon
    case MemberValue => ObjectMissCommaOrCurlyBracket
    case Element => ArrayMissCommaOrSquareBracket
    case _ => UnspecificSyntaxError
  }

  /** HandleError: keep an error already set, else name one after the state. */
  function HandleError(s: State, at: Progress): Progress {
    if at.status.Bad? then at else at.(status := Bad(SyntaxError(s), at.pos))
  }

  function SkipAt(t: bytes, p: Progress): Progress {
    p.(pos := SkipSpace(t, p.pos))
  }

  /** The loop, from a machine at a byte that is no white space. */
  function Run(t: bytes, h: Handler, stopWhenDone: bool, m: Machine): Progress
    requires Ready(t, m)
    decreases |t| - m.at.pos
  {
    if Peek(t, m.at.pos) == NUL then
      if m.state.Finish? then m.at else HandleError(m.state, m.at)
    else
      var m' := Next(t, h, m);
      if m'.state.Error? then HandleError(m.state, m'.at)
      else if stopWhenDone && m'.state.Finish? then m'.at
      else Run(t, h, stopWhenDone, m'.(at := SkipAt(t, m'.at)))
  }

  /** Parse with kParseIterativeFlag, on a stream read up to pos by a handler that has had the events of log. */
  function IterativeParse(t: bytes, pos: nat, log: seq<Event>, h: Handler, stopWhenDone: bool): Progress
    requires pos <= |t|
  {
    Run(t, h, stopWhenDone, Machine(Start, [], Progress(SkipSpace(t, pos), log, Good)))
  }

  // ---------------------------------------------------------------- agreement

  /** What the recursive reader does with the rest of the container it is in, from state s at p with
      n values counted. */
  function Here(t: bytes, h: Handler, s: State, p: nat, log: seq<Event>, n: nat): (r: Progress)
    requires (InArray(s) || InObject(s)) && p <= |t|
    ensures r.status.Good? ==> p < r.pos <= |t|
  {
    match s
    case ArrayInitial => ArrayOpen(t, p, log, h)
    case Element => AfterElement(t, p, log, h, n)
    case ElementDelimiter => Elements(t, p, log, h, n)
    case ObjectInitial => ObjectOpen(t, p, log, h)
    case MemberKey => AfterKey(t, p, log, h, n)
    case KeyValueDelimiter => JsonGrammar.MemberValue(t, p, log, h, n)
    case MemberValue => AfterMember(t, p, log, h, n)
    case MemberDelimiter => Members(t, p, log, h, n)
  }

  /** What the recursive reader would still do from the middle of a text: finish the container on
      top of the stack, then go on in the one below. */
  function Resume(t: bytes, h: Handler, stop: bool, s: State, frames: seq<Frame>, pos: nat, log: seq<Event>): Progress
    requires Mirrors(s, frames) && pos <= |t|
    decreases |frames|
  {
    var p := SkipSpace(t, pos);
    if s.Finish? then AfterRoot(t, pos, log, stop)
    else if s.Start? then
      if Peek(t, p) == NUL then Fail(p, log, DocumentEmpty, p)
      else
        var v := ParseValue(t, p, log, h);
        if v.status.Bad? then v else AfterRoot(t, v.pos, v.log, stop)
    else Return(t, h, stop, frames, Here(t, h, s, p, log, Top(frames).count))
  }

  /** The container on top ended as r says: go on below it. */
  function Return(t: bytes, h: Handler, stop: bool, frames: seq<Frame>, r: Progress): Progress
    requires frames != [] && (r.status.Good? ==> r.pos <= |t|)
    requires Mirrors(Top(frames).ret, Below(frames))
    decreases |frames|, 0
  {
    if r.status.Bad? then r
    else
      assert Mirrors(Landing(Top(frames).ret), Below(frames));
      Resume(t, h, stop, Landing(Top(frames).ret), Below(frames), r.pos, r.log)
  }

  function ResumeAt(t: bytes, h: Handler, stop: bool, m: Machine): Progress
    requires Ready(t, m)
  {
    Resume(t, h, stop, m.state, m.frames, m.at.pos, m.at.log)
  }

  /** Same verdict, same events; error codes and offsets of a refused text may differ. */
  predicate Agree(a: Progress, b: Progress) {
    a.log == b.log && a.status.Good? == b.status.Good? && (a.status.Good? ==> a == b)
  }

  lemma SkipSpaceStays(t: bytes, p: nat)
    requires p <= |t|
    ensures SkipSpace(t, SkipSpace(t, p)) == SkipSpace(t, p)
  {
  }

  /** Where no value starts, ParseValue reports nothing and refuses. */
  lemma NoValue(t: bytes, p: nat, log: seq<Event>, h: Handler)
    requires p <= |t|
    requires var c := Peek(t, p); c == NUL || c == RBRACKET || c == RBRACE || c == COMMA || c == COLON
    ensures ParseValue(t, p, log, h) == Fail(p, log, ValueInvalid, p)
  {
    assert ParseValue(t, p, log, h) == ParseScalar(t, p, log, h);
    assert ParseScalar(t, p, log, h) == ParseNumber(t, p, log, h);
  }

  /** Where the table has no way on, the recursive reader stops without another event. */
  lemma HereRefuses(t: bytes, h: Handler, s: State, p: nat, log: seq<Event>, n: nat)
    requires (InArray(s) || InObject(s)) && p <= |t| && !IsSpace(Peek(t, p))
    requires Peek(t, p) == NUL || Predict(s, Tokenize(Peek(t, p))).Error?
    ensures Here(t, h, s, p, log, n).status.Bad? && Here(t, h, s, p, log, n).log == log
  {
    var c := Peek(t, p);
    if c == NUL || c == RBRACKET || c == RBRACE || c == COMMA || c == COLON {
      NoValue(t, p, log, h);
    }
    assert s.ArrayInitial? ==> Here(t, h, s, p, log, n) == Elements(t, p, log, h, 0);
    assert s.ObjectInitial? ==> Here(t, h, s, p, log, n) == Members(t, p, log, h, 0);
  }

  lemma ResumeInside(t: bytes, h: Handler, stop: bool, m: Machine)
    requires Ready(t, m) && m.frames != []
    ensures ResumeAt(t, h, stop, m)
         == Return(t, h, stop, m.frames,
                   Here(t, h, m.state, SkipSpace(t, m.at.pos), m.at.log, Top(m.frames).count))
  {
  }

  lemma RefusalAgrees(t: bytes, h: Handler, stop: bool, m: Machine)
    requires Ready(t, m) && !IsSpace(Peek(t, m.at.pos)) && (m.state.Finish? ==> !stop)
    requires if Peek(t, m.at.pos) == NUL then !m.state.Finish?
             else Predict(m.state, Tokenize(Peek(t, m.at.pos))).Error?
    ensures ResumeAt(t, h, stop, m).status.Bad? && ResumeAt(t, h, stop, m).log == m.at.log
  {
    assert SkipSpace(t, m.at.pos) == m.at.pos;
    if m.frames != [] {
      ResumeInside(t, h, stop, m);
      HereRefuses(t, h, m.state, m.at.pos, m.at.log, Top(m.frames).count);
    } else if m.state.Start? && Peek(t, m.at.pos) != NUL {
      NoValue(t, m.at.pos, m.at.log, h);
    }
  }

  /** m' does what remains to be done from m: on an error, what remained was an error too. */
  predicate Continues(t: bytes, h: Handler, stop: bool, m: Machine, m': Machine)
    requires Ready(t, m) && (!m'.state.Error? ==> Ready(t, m'))
  {
    var r := ResumeAt(t, h, stop, m);
    if m'.state.Error? then r.status.Bad? && r.log == m'.at.log else r == ResumeAt(t, h, stop, m')
  }

  /** White space after an element, a name or a member's value is skipped in any case. */
  lemma AfterSpace(t: bytes, p: nat, log: seq<Event>, h: Handler, n: nat)
    requires p <= |t|
    ensures AfterElement(t, p, log, h, n) == AfterElement(t, SkipSpace(t, p), log, h, n)
    ensures AfterMember(t, p, log, h, n) == AfterMember(t, SkipSpace(t, p), log, h, n)
    ensures AfterKey(t, p, log, h, n) == AfterKey(t, SkipSpace(t, p), log, h, n)
  {
    SkipSpaceStays(t, p);
  }

  /** Where a value is due, the recursive reader parses it and goes on in the state after a value. */
  lemma HereValue(t: bytes, h: Handler, s: State, p: nat, log: seq<Event>, n: nat)
    requires p <= |t| && Peek(t, p) != RBRACKET
    requires (s.ArrayInitial? && n == 0) || s.ElementDelimiter? || s.KeyValueDelimiter?
    ensures var v := ParseValue(t, p, log, h);
            v.status.Bad? ==> Here(t, h, s, p, log, n) == v
    ensures var v := ParseValue(t, p, log, h);
            v.status.Good? ==>
              Here(t, h, s, p, log, n) == Here(t, h, Resumption(s), SkipSpace(t, v.pos), v.log, n)
  {
    hide ParseValue, AfterKey, Members, ObjectOpen, AfterElement, AfterMember;
    var v := ParseValue(t, p, log, h);
    if v.status.Good? {
      AfterSpace(t, v.pos, v.log, h, n);
    }
    if s.ArrayInitial? {
      assert Here(t, h, s, p, log, n) == Elements(t, p, log, h, 0);
    }
  }

  /** Where a name is due, the recursive reader parses it and goes on in the state after a name. */
  lemma HereKey(t: bytes, h: Handler, s: State, p: nat, log: seq<Event>, n: nat)
    requires p <= |t| && Peek(t, p) == QUOTE
    requires (s.ObjectInitial? && n == 0) || s.MemberDelimiter?
    ensures var k := ParseString(t, p, log, h, true);
            k.status.Bad? ==> Here(t, h, s, p, log, n) == k
    ensures var k := ParseString(t, p, log, h, true);
            k.status.Good? ==>
              Here(t, h, s, p, log, n) == Here(t, h, MemberKey, SkipSpace(t, k.pos), k.log, n)
  {
    hide JsonGrammar.MemberValue, ArrayOpen, Elements, AfterElement, AfterMember, AfterKey;
    assert Here(t, h, s, p, log, n) == Members(t, p, log, h, n);
    var k := ParseString(t, p, log, h, true);
    if k.status.Good? {
      assert Members(t, p, log, h, n) == AfterKey(t, k.pos, k.log, h, n);
      AfterSpace(t, k.pos, k.log, h, n);
    }
  }

  /** At a closing bracket the recursive reader reports the count and leaves the container. */
  lemma HereCloses(t: bytes, h: Handler, s: State, p: nat, log: seq<Event>, n: nat)
    requires (InArray(s) || InObject(s)) && p < |t| && !IsSpace(t[p])
    requires s.ArrayInitial? || s.ObjectInitial? ==> n == 0
    requires var dst := Predict(s, Tokenize(t[p])); dst.ObjectFinish? || dst.ArrayFinish?
    ensures var c := n + if s.Element? || s.MemberValue? then 1 else 0;
            Here(t, h, s, p, log, n)
            == Emit(h, p + 1, log, if InArray(s) then EndArray(c) else EndObject(c), p + 1)
  {
    assert SkipSpace(t, p) == p;
  }

  /** At a comma or colon the recursive reader goes on behind it, a comma counting a value. */
  lemma HereDelimits(t: bytes, h: Handler, s: State, p: nat, log: seq<Event>, n: nat)
    requires (InArray(s) || InObject(s)) && p < |t| && !IsSpace(t[p])
    requires var dst := Predict(s, Tokenize(t[p]));
             dst.KeyValueDelimiter? || dst.MemberDelimiter? || dst.ElementDelimiter?
    ensures var dst := Predict(s, Tokenize(t[p]));
            var c := if dst.KeyValueDelimiter? then n else n + 1;
            Here(t, h, s, p, log, n) == Here(t, h, dst, SkipSpace(t, p + 1), log, c)
  {
    hide Elements, Members, JsonGrammar.MemberValue, ArrayOpen, ObjectOpen;
    assert SkipSpace(t, p) == p;
  }

  lemma CompoundValue(t: bytes, h: Handler, p: nat, log: seq<Event>)
    requires p < |t| && (t[p] == LBRACKET || t[p] == LBRACE)
    ensures var s := if t[p] == LBRACKET then ArrayInitial else ObjectInitial;
            var e := Emit(h, p + 1, log, if t[p] == LBRACKET then StartArray else StartObject, p + 1);
            ParseValue(t, p, log, h) == if e.status.Bad? then e else Here(t, h, s, SkipSpace(t, p + 1), e.log, 0)
  {
    assert ParseValue(t, p, log, h)
        == if t[p] == LBRACKET then ParseArray(t, p, log, h) else ParseObject(t, p, log, h);
  }

  /** At an opening bracket that starts the text. */
  lemma NextOpensRoot(t: bytes, h: Handler, at: Progress)
    requires at.status.Good? && at.pos < |t| && (t[at.pos] == LBRACKET || t[at.pos] == LBRACE)
    ensures var m, inArray := Machine(Start, [], at), t[at.pos] == LBRACKET;
            var e := Emit(h, at.pos, at.log, if inArray then StartArray else StartObject, at.pos);
            && Ready(t, m)
            && Next(t, h, m)
            == if e.status.Bad? then Machine(Error, [Frame(Start, 0)], e)
               else Machine(if inArray then ArrayInitial else ObjectInitial, [Frame(Start, 0)], Step(e))
  {
    var m := Machine(Start, [], at);
    var dst := if t[at.pos] == LBRACKET then ArrayInitial else ObjectInitial;
    assert Predict(Start, Tokenize(t[at.pos])) == dst;
    hide ParseValue, ParseString, Predict, Tokenize;
    assert Next(t, h, m) == TransitOpen(h, m, dst);
    hide Next;
    assert [] + [Frame(Start, 0)] == [Frame(Start, 0)];
  }

  /** The root container ended as r says. */
  lemma ReturnRoot(t: bytes, h: Handler, stop: bool, r: Progress)
    requires r.status.Good? ==> r.pos <= |t|
    ensures Mirrors(Top([Frame(Start, 0)]).ret, Below([Frame(Start, 0)]))
    ensures Return(t, h, stop, [Frame(Start, 0)], r) == if r.status.Bad? then r else AfterRoot(t, r.pos, r.log, stop)
  {
    assert Below([Frame(Start, 0)]) == [] && Top([Frame(Start, 0)]) == Frame(Start, 0);
  }

  lemma ResumeStart(t: bytes, h: Handler, stop: bool, at: Progress)
    requires at.status.Good? && at.pos < |t| && !IsSpace(t[at.pos]) && t[at.pos] != NUL
    ensures Ready(t, Machine(Start, [], at))
    ensures var w := ParseValue(t, at.pos, at.log, h);
            ResumeAt(t, h, stop, Machine(Start, [], at))
            == if w.status.Bad? then w else AfterRoot(t, w.pos, w.log, stop)
  {
    hide ParseValue;
    assert SkipSpace(t, at.pos) == at.pos;
  }

  lemma OpenRootAgrees(t: bytes, h: Handler, stop: bool, at: Progress)
    requires at.status.Good? && at.pos < |t| && !IsSpace(t[at.pos]) && t[at.pos] != NUL
    requires t[at.pos] == LBRACKET || t[at.pos] == LBRACE
    ensures Continues(t, h, stop, Machine(Start, [], at), Next(t, h, Machine(Start, [], at)))
  {
    hide ParseValue, Here, Return, Resume, Next, Predict, Tokenize, Mirrors, SkipSpace, AfterRoot;
    var m := Machine(Start, [], at);
    NextOpensRoot(t, h, at);
    var m' := Next(t, h, m);
    NextReady(t, h, m);
    CompoundValue(t, h, at.pos, at.log);
    ResumeStart(t, h, stop, at);
    if !m'.state.Error? {
      assert m'.frames == [Frame(Start, 0)];
      ResumeInside(t, h, stop, m');
      ReturnRoot(t, h, stop, ParseValue(t, at.pos, at.log, h));
    }
  }

  /** A container inside another ended as r says: go on in the one around it. */
  lemma ReturnInside(t: bytes, h: Handler, stop: bool, frames: seq<Frame>, ret: State, r: Progress)
    requires frames != [] && Mirrors(ret, frames) && (ret.Element? || ret.MemberValue?)
             && (r.status.Good? ==> r.pos <= |t|)
    ensures var inner := frames + [Frame(ret, 0)];
            Return(t, h, stop, inner, r)
            == if r.status.Bad? then r
               else Return(t, h, stop, frames, Here(t, h, ret, SkipSpace(t, r.pos), r.log, Top(frames).count))
  {
    hide Here;
    var inner := frames + [Frame(ret, 0)];
    assert Below(inner) == frames && Top(inner) == Frame(ret, 0);
    if r.status.Good? {
      ResumeInside(t, h, stop, Machine(ret, frames, r));
    }
  }

  lemma ReturnRefused(t: bytes, h: Handler, stop: bool, m: Machine, r: Progress)
    requires Ready(t, m) && m.frames != [] && r.status.Bad?
    ensures Return(t, h, stop, m.frames, r) == r
  {
  }

  lemma NextReady(t: bytes, h: Handler, m: Machine)
    requires Ready(t, m) && Peek(t, m.at.pos) != NUL
    ensures !Next(t, h, m).state.Error? ==> Ready(t, Next(t, h, m)) && m.at.pos < Next(t, h, m).at.pos
  {
  }

  /** At an opening bracket inside a container. */
  lemma NextOpens(t: bytes, h: Handler, m: Machine)
    requires Ready(t, m) && Peek(t, m.at.pos) != NUL && m.frames != []
    requires var dst := Predict(m.state, Tokenize(Peek(t, m.at.pos))); dst.ObjectInitial? || dst.ArrayInitial?
    ensures m.at.pos < |t| && (t[m.at.pos] == LBRACKET || t[m.at.pos] == LBRACE)
    ensures m.state.ArrayInitial? || m.state.ElementDelimiter? || m.state.KeyValueDelimiter?
    ensures m.state.ArrayInitial? ==> Top(m.frames).count == 0
    ensures Mirrors(Resumption(m.state), m.frames)
    ensures var p, log, inArray := m.at.pos, m.at.log, t[m.at.pos] == LBRACKET;
            var e := Emit(h, p, log, if inArray then StartArray else StartObject, p);
            Next(t, h, m)
            == if e.status.Bad? then Machine(Error, m.frames + [Frame(Resumption(m.state), 0)], e)
               else Machine(if inArray then ArrayInitial else ObjectInitial,
                            m.frames + [Frame(Resumption(m.state), 0)], Step(e))
  {
    hide ParseValue, ParseString;
  }

  lemma OpenAgrees(t: bytes, h: Handler, stop: bool, m: Machine)
    requires Ready(t, m) && !IsSpace(Peek(t, m.at.pos)) && Peek(t, m.at.pos) != NUL && m.frames != []
    requires var dst := Predict(m.state, Tokenize(Peek(t, m.at.pos))); dst.ObjectInitial? || dst.ArrayInitial?
    ensures Continues(t, h, stop, m, Next(t, h, m))
  {
    hide ParseValue, Here, Return, Resume, Next, Predict, Tokenize, Mirrors;
    var p, log, n := m.at.pos, m.at.log, Top(m.frames).count;
    var m' := Next(t, h, m);
    assert SkipSpace(t, p) == p;
    hide SkipSpace;
    NextReady(t, h, m);
    NextOpens(t, h, m);
    ResumeInside(t, h, stop, m);
    HereValue(t, h, m.state, p, log, n);
    CompoundValue(t, h, p, log);
    var v, ret := ParseValue(t, p, log, h), Resumption(m.state);
    if v.status.Bad? {
      ReturnRefused(t, h, stop, m, v);
    }
    if !m'.state.Error? {
      var inner := m.frames + [Frame(ret, 0)];
      assert m'.frames == inner && Top(inner) == Frame(ret, 0);
      ResumeInside(t, h, stop, m');
      ReturnInside(t, h, stop, m.frames, ret, v);
    }
  }

  lemma CloseAgrees(t: bytes, h: Handler, stop: bool, m: Machine)
    requires Ready(t, m) && !IsSpace(Peek(t, m.at.pos)) && Peek(t, m.at.pos) != NUL
    requires var dst := Predict(m.state, Tokenize(Peek(t, m.at.pos))); dst.ObjectFinish? || dst.ArrayFinish?
    ensures Continues(t, h, stop, m, Next(t, h, m))
  {
    hide Here, Return, Resume, Next, Predict, Tokenize, Mirrors;
    NextCloses(t, h, m);
    Inside(t, m);
    var p, log, n := m.at.pos, m.at.log, Top(m.frames).count;
    var m' := Next(t, h, m);
    assert SkipSpace(t, p) == p;
    hide SkipSpace;
    NextReady(t, h, m);
    ResumeInside(t, h, stop, m);
    HereCloses(t, h, m.state, p, log, n);
    var r := Here(t, h, m.state, p, log, n);
    if r.status.Bad? {
      ReturnRefused(t, h, stop, m, r);
    } else {
      ReturnLands(t, h, stop, m, r);
      assert m' == Machine(Landing(Top(m.frames).ret), Below(m.frames), r);
    }
  }

  /** A container ended: what remains is what the machine, popped, still has before it. */
  lemma ReturnLands(t: bytes, h: Handler, stop: bool, m: Machine, r: Progress)
    requires Ready(t, m) && m.frames != [] && r.status.Good? && r.pos <= |t|
    ensures Ready(t, Machine(Landing(Top(m.frames).ret), Below(m.frames), r)) && !Landing(Top(m.frames).ret).Error?
    ensures Return(t, h, stop, m.frames, r)
         == ResumeAt(t, h, stop, Machine(Landing(Top(m.frames).ret), Below(m.frames), r))
  {
    hide Here;
    assert Mirrors(Top(m.frames).ret, Below(m.frames));
    assert Mirrors(Landing(Top(m.frames).ret), Below(m.frames));
  }

  /** At a closing bracket. */
  lemma NextCloses(t: bytes, h: Handler, m: Machine)
    requires Ready(t, m) && Peek(t, m.at.pos) != NUL
    requires var dst := Predict(m.state, Tokenize(Peek(t, m.at.pos))); dst.ObjectFinish? || dst.ArrayFinish?
    ensures m.frames != [] && m.at.pos < |t| && !Landing(Top(m.frames).ret).Error?
    ensures var p, log := m.at.pos, m.at.log;
            var c := Top(m.frames).count + if m.state.MemberValue? || m.state.Element? then 1 else 0;
            var e := Emit(h, p, log, if InArray(m.state) then EndArray(c) else EndObject(c), p);
            Next(t, h, m)
            == if e.status.Bad? then Machine(Error, Below(m.frames), e)
               else Machine(Landing(Top(m.frames).ret), Below(m.frames), Step(e))
  {
    hide ParseValue, ParseString;
  }

  lemma RootAgrees(t: bytes, h: Handler, stop: bool, m: Machine)
    requires Ready(t, m) && !IsSpace(Peek(t, m.at.pos)) && Peek(t, m.at.pos) != NUL
    requires Predict(m.state, Tokenize(Peek(t, m.at.pos))).SingleValue?
    ensures Continues(t, h, stop, m, Next(t, h, m))
  {
    NextIsRoot(t, h, m);
    hide ParseValue, Next, Predict, Tokenize, SkipSpace, AfterRoot;
    ResumeStart(t, h, stop, m.at);
  }

  lemma NextIsRoot(t: bytes, h: Handler, m: Machine)
    requires Ready(t, m) && Peek(t, m.at.pos) != NUL
    requires Predict(m.state, Tokenize(Peek(t, m.at.pos))).SingleValue?
    ensures m.at.pos < |t| && m == Machine(Start, [], m.at)
    ensures Next(t, h, m) == Enter(Finish, [], ParseValue(t, m.at.pos, m.at.log, h))
  {
    hide ParseValue;
  }

  lemma Inside(t: bytes, m: Machine)
    requires Ready(t, m) && m.frames != []
    ensures InArray(m.state) || InObject(m.state)
    ensures m.state.ArrayInitial? || m.state.ObjectInitial? ==> Top(m.frames).count == 0
    ensures Mirrors(Top(m.frames).ret, Below(m.frames))
  {
  }

  /** At a value inside a container: the stack stays as high as it is. */
  lemma NextParses(t: bytes, h: Handler, m: Machine)
    requires Ready(t, m) && Peek(t, m.at.pos) != NUL
    requires var dst := Predict(m.state, Tokenize(Peek(t, m.at.pos))); dst.Element? || dst.MemberValue?
    ensures m.at.pos < |t| && m.frames != [] && Peek(t, m.at.pos) != RBRACKET
    ensures m.state.ArrayInitial? || m.state.ElementDelimiter? || m.state.KeyValueDelimiter?
    ensures Next(t, h, m) == Enter(Resumption(m.state), m.frames, ParseValue(t, m.at.pos, m.at.log, h))
  {
    hide ParseValue, ParseString;
  }

  /** At a name. */
  lemma NextNames(t: bytes, h: Handler, m: Machine)
    requires Ready(t, m) && Peek(t, m.at.pos) != NUL && Predict(m.state, Tokenize(Peek(t, m.at.pos))).MemberKey?
    ensures m.at.pos < |t| && m.frames != [] && Peek(t, m.at.pos) == QUOTE
    ensures m.state.ObjectInitial? || m.state.MemberDelimiter?
    ensures Next(t, h, m) == Enter(MemberKey, m.frames, ParseString(t, m.at.pos, m.at.log, h, true))
  {
    hide ParseValue, ParseString;
  }

  /** At a colon or a comma, which counts the value before it. */
  lemma NextDelimits(t: bytes, h: Handler, m: Machine)
    requires Ready(t, m) && Peek(t, m.at.pos) != NUL
    requires var dst := Predict(m.state, Tokenize(Peek(t, m.at.pos)));
             dst.KeyValueDelimiter? || dst.MemberDelimiter? || dst.ElementDelimiter?
    ensures m.at.pos < |t| && m.frames != []
    ensures var dst := Predict(m.state, Tokenize(Peek(t, m.at.pos)));
            Next(t, h, m)
            == if dst.KeyValueDelimiter? then Machine(dst, m.frames, Step(m.at))
               else Machine(dst, Below(m.frames) + [Top(m.frames).(count := Top(m.frames).count + 1)], Step(m.at))
  {
    hide ParseValue, ParseString;
  }

  lemma ValueAgrees(t: bytes, h: Handler, stop: bool, m: Machine)
    requires Ready(t, m) && !IsSpace(Peek(t, m.at.pos)) && Peek(t, m.at.pos) != NUL
    requires var dst := Predict(m.state, Tokenize(Peek(t, m.at.pos))); dst.Element? || dst.MemberValue?
    ensures Continues(t, h, stop, m, Next(t, h, m))
  {
    hide ParseValue, Here, Return, Resume, Next, Mirrors, Predict, Tokenize;
    NextParses(t, h, m);
    Inside(t, m);
    var p, log, n := m.at.pos, m.at.log, Top(m.frames).count;
    var m', v := Next(t, h, m), ParseValue(t, p, log, h);
    assert SkipSpace(t, p) == p;
    hide SkipSpace;
    NextReady(t, h, m);
    ResumeInside(t, h, stop, m);
    HereValue(t, h, m.state, p, log, n);
    if m'.state.Error? {
      ReturnRefused(t, h, stop, m, v);
    } else {
      ResumeInside(t, h, stop, m');
    }
  }

  lemma KeyAgrees(t: bytes, h: Handler, stop: bool, m: Machine)
    requires Ready(t, m) && !IsSpace(Peek(t, m.at.pos)) && Peek(t, m.at.pos) != NUL
    requires Predict(m.state, Tokenize(Peek(t, m.at.pos))).MemberKey?
    ensures Continues(t, h, stop, m, Next(t, h, m))
  {
    hide ParseValue, ParseString, Here, Return, Resume, Next, Mirrors, Predict, Tokenize;
    NextNames(t, h, m);
    Inside(t, m);
    var p, log, n := m.at.pos, m.at.log, Top(m.frames).count;
    var m', k := Next(t, h, m), ParseString(t, p, log, h, true);
    assert SkipSpace(t, p) == p;
    hide SkipSpace;
    NextReady(t, h, m);
    ResumeInside(t, h, stop, m);
    HereKey(t, h, m.state, p, log, n);
    if m'.state.Error? {
      ReturnRefused(t, h, stop, m, k);
    } else {
      ResumeInside(t, h, stop, m');
    }
  }

  lemma DelimiterAgrees(t: bytes, h: Handler, stop: bool, m: Machine)
    requires Ready(t, m) && !IsSpace(Peek(t, m.at.pos)) && Peek(t, m.at.pos) != NUL
    requires var dst := Predict(m.state, Tokenize(Peek(t, m.at.pos)));
             dst.KeyValueDelimiter? || dst.MemberDelimiter? || dst.ElementDelimiter?
    ensures Continues(t, h, stop, m, Next(t, h, m))
  {
    hide ParseValue, Here, Return, Resume, Next, Mirrors, Predict, Tokenize;
    NextDelimits(t, h, m);
    Inside(t, m);
    var p, log, n := m.at.pos, m.at.log, Top(m.frames).count;
    var m' := Next(t, h, m);
    assert SkipSpace(t, p) == p;
    hide SkipSpace;
    NextReady(t, h, m);
    ResumeInside(t, h, stop, m);
    HereDelimits(t, h, m.state, p, log, n);
    ResumeInside(t, h, stop, m');
    ReturnSame(t, h, stop, m.frames, m'.frames, Here(t, h, m.state, p, log, n));
  }

  /** The count on top no longer matters once the container has ended. */
  lemma ReturnSame(t: bytes, h: Handler, stop: bool, a: seq<Frame>, b: seq<Frame>, r: Progress)
    requires a != [] && b != [] && Below(a) == Below(b) && Top(a).ret == Top(b).ret
    requires Mirrors(Top(a).ret, Below(a)) && (r.status.Good? ==> r.pos <= |t|)
    ensures Return(t, h, stop, a, r) == Return(t, h, stop, b, r)
  {
    hide Here;
  }

  /** One transition leaves unchanged what the recursive reader would still do. */
  lemma TransitAgrees(t: bytes, h: Handler, stop: bool, m: Machine)
    requires Ready(t, m) && !IsSpace(Peek(t, m.at.pos)) && Peek(t, m.at.pos) != NUL
    requires m.state.Finish? ==> !stop
    ensures Continues(t, h, stop, m, Next(t, h, m))
  {
    var dst := Predict(m.state, Tokenize(Peek(t, m.at.pos)));
    if dst.Error? {
      RefusalAgrees(t, h, stop, m);
    } else if dst.ObjectInitial? || dst.ArrayInitial? {
      if m.frames == [] { OpenRootAgrees(t, h, stop, m.at); } else { OpenAgrees(t, h, stop, m); }
    } else if dst.ObjectFinish? || dst.ArrayFinish? {
      CloseAgrees(t, h, stop, m);
    } else if dst.MemberKey? {
      KeyAgrees(t, h, stop, m);
    } else if dst.SingleValue? {
      RootAgrees(t, h, stop, m);
    } else if dst.Element? || dst.MemberValue? {
      ValueAgrees(t, h, stop, m);
    } else {
      DelimiterAgrees(t, h, stop, m);
    }
  }

  lemma {:induction false} RunAgrees(t: bytes, h: Handler, stop: bool, m: Machine)
    requires Ready(t, m) && !IsSpace(Peek(t, m.at.pos))
    requires m.state.Finish? ==> !stop
    ensures Agree(Run(t, h, stop, m), ResumeAt(t, h, stop, m))
    decreases |t| - m.at.pos
  {
    if Peek(t, m.at.pos) == NUL {
      if !m.state.Finish? {
        RefusalAgrees(t, h, stop, m);
      }
    } else {
      TransitAgrees(t, h, stop, m);
      var m' := Next(t, h, m);
      if !m'.state.Error? && !(stop && m'.state.Finish?) {
        var next := m'.(at := SkipAt(t, m'.at));
        SkipSpaceStays(t, m'.at.pos);
        assert ResumeAt(t, h, stop, next) == ResumeAt(t, h, stop, m');
        RunAgrees(t, h, stop, next);
      }
    }
  }

  /** On every text, from any position and for every handler the two readers agree. */
  lemma IterativeAgrees(t: bytes, pos: nat, log: seq<Event>, h: Handler, stop: bool)
    requires pos <= |t|
    ensures Agree(IterativeParse(t, pos, log, h, stop), ParseFrom(t, pos, log, h, stop))
  {
    RunAgrees(t, h, stop, Machine(Start, [], Progress(SkipSpace(t, pos), log, Good)));
    SkipSpaceStays(t, pos);
  }
}
