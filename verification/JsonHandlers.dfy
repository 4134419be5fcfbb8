/** The two writers as objects: an output stream, a level stack and a root flag updated by events. */
module JsonHandlers {
  import opened Bytes
  import opened JsonEvents
  import opened JsonGrammar
  import opened JsonDom
  import opened JsonText
  import opened JsonWriter
  import opened Options

  class Writer {
    var os: bytes
    var levels: seq<Level>
    var hasRoot: bool

    constructor ()
      ensures Now() == BLANK
    {
      os, levels, hasRoot := [], [], false;
    }

    ghost function Now(): Page
      reads this
    {
      Page(os, levels, hasRoot)
    }

    method Put(c: byte)
      modifies `os
      ensures os == old(os) + [c]
    {
      os := os + [c];
    }

    /** PutN. */
    method PutN(c: byte, n: nat)
      modifies `os
      ensures os == old(os) + Repeat(c, n)
    {
      var i := 0;
      while i < n
        invariant 0 <= i <= n && os == old(os) + Repeat(c, i)
      {
        Put(c);
        i := i + 1;
      }
    }

    method PutAll(s: bytes)
      modifies `os
      ensures os == old(os) + s
    {
      var i := 0;
      while i < |s|
        invariant 0 <= i <= |s| && os == old(os) + s[..i]
      {
        Put(s[i]);
        i := i + 1;
      }
      assert s[..|s|] == s;
    }

    /** Count a value at the top level, or mark the root. */
    method CountValue(isString: bool)
      requires MayWrite(Now(), isString)
      modifies `levels, `hasRoot
      ensures levels == Counted(old(levels)) && hasRoot == (old(hasRoot) || old(levels) == [])
    {
      if levels != [] {
        var level := TopLevel(levels);
        levels := Popped(levels) + [level.(valueCount := level.valueCount + 1)];
      } else {
        hasRoot := true;
      }
    }

    method Prefix(isString: bool)
      requires MayWrite(Now(), isString)
      modifies this
      ensures Now() == Led(old(Now()), Compact)
    {
      if levels != [] {
        var level := TopLevel(levels);
        if level.valueCount > 0 {
          if level.inArray {
            Put(COMMA);
          } else {
            Put(if level.valueCount % 2 == 0 then COMMA else COLON);
          }
        }
      }
      CountValue(isString);
      assert old(levels) != [] && !TopLevel(old(levels)).inArray && TopLevel(old(levels)).valueCount == 0
        ==> os == old(os) + [];
    }

    /** One byte of a string, through the escape table. */
    method PutEscaped(c: byte)
      modifies `os
      ensures os == old(os) + EscapeByte(c)
    {
      var e := EscapeCode(c);
      if e != 0 {
        Put(BACKSLASH);
        Put(e);
        if e == LOWER_U {
          Put(ZERO);
          Put(ZERO);
          Put(HexChar(c / 16));
          Put(HexChar(c % 16));
        }
      } else {
        Put(c);
      }
    }

    method WriteString(s: bytes)
      modifies `os
      ensures os == old(os) + QuotedThen(s, [])
    {
      hide EscapeByte;
      Put(QUOTE);
      var i := 0;
      while i < |s|
        invariant 0 <= i <= |s|
        invariant os + EscapedThen(s[i..], []) == old(os) + QuotedThen(s, [])
      {
        ghost var rest := EscapedThen(s[i + 1..], []);
        ghost var before := os;
        assert s[i..][1..] == s[i + 1..];
        PutEscaped(s[i]);
        assert before + (EscapeByte(s[i]) + rest) == os + rest;
        i := i + 1;
      }
      Put(QUOTE);
    }

    method WriteEventText(e: Event)
      requires !e.StartObject? && !e.StartArray? && !e.EndObject? && !e.EndArray?
      modifies `os
      ensures os == old(os) + match e
        case Null => NULL_TEXT
        case Bool(b) => if b then TRUE_TEXT else FALSE_TEXT
        case Int(n) => IntegerText(n)
        case Uint(n) => IntegerText(n)
        case Int64(n) => IntegerText(n)
        case Uint64(n) => IntegerText(n)
        case Double(literal) => literal
        case String(s) => QuotedThen(s, [])
        case Key(s) => QuotedThen(s, [])
        case _ => []
    {
      match e
      case Null => PutAll(NULL_TEXT);
      case Bool(b) => PutAll(if b then TRUE_TEXT else FALSE_TEXT);
      case Int(n) => PutAll(IntegerText(n));
      case Uint(n) => PutAll(IntegerText(n));
      case Int64(n) => PutAll(IntegerText(n));
      case Uint64(n) => PutAll(IntegerText(n));
      case Double(literal) => PutAll(literal);
      case String(s) => WriteString(s);
      case Key(s) => WriteString(s);
    }

    /** Any handler call. */
    method Handle(e: Event)
      requires WriteEvent(Now(), Compact, e).Some?
      modifies this
      ensures Some(Now()) == WriteEvent(old(Now()), Compact, e)
    {
      match e
      case StartObject => Open(false);
      case StartArray => Open(true);
      case EndObject(_) => Close(false);
      case EndArray(_) => Close(true);
      case _ =>
        Prefix(e.String? || e.Key?);
        WriteEventText(e);
    }

    method Open(inArray: bool)
      requires MayWrite(Now(), false)
      modifies this
      ensures Some(Now()) == WriteOpen(old(Now()), Compact, inArray)
    {
      Prefix(false);
      levels := levels + [Level(0, inArray)];
      Put(if inArray then LBRACKET else LBRACE);
    }

    method Close(inArray: bool)
      requires levels != [] && TopLevel(levels).inArray == inArray
      modifies this
      ensures Some(Now()) == WriteClose(old(Now()), Compact, inArray)
    {
      levels := Popped(levels);
      Put(if inArray then RBRACKET else RBRACE);
      assert [] + [if inArray then RBRACKET else RBRACE] == [if inArray then RBRACKET else RBRACE];
    }
  }

  /** PrettyWriter: the same stream and level stack, with line breaks and indents. */
  class PrettyWriter {
    const base: Writer
    var indentChar: byte
    var indentCharCount: nat

    constructor ()
      ensures fresh(base) && Now() == BLANK && Layout() == Pretty(SPACE, 4)
    {
      base := new Writer();
      indentChar, indentCharCount := SPACE, 4;
    }

    ghost function Now(): Page
      reads base
    {
      base.Now()
    }

    function Layout(): Layout
      reads this
    {
      Pretty(indentChar, indentCharCount)
    }

    method SetIndent(c: byte, count: nat)
      requires IsSpace(c)
      modifies this
      ensures Layout() == Pretty(c, count) && ValidLayout(Layout())
    {
      indentChar, indentCharCount := c, count;
    }

    method WriteIndent()
      modifies base`os
      ensures base.os == old(base.os) + Repeat(indentChar, |base.levels| * indentCharCount)
    {
      var count := |base.levels| * indentCharCount;
      base.PutN(indentChar, count);
    }

    method NewLine()
      modifies base`os
      ensures base.os == old(base.os) + Gap(Layout(), |base.levels|)
    {
      base.Put(LF);
      WriteIndent();
    }

    method PrettyPrefix(isString: bool)
      requires MayWrite(Now(), isString)
      modifies base
      ensures Now() == Led(old(Now()), Layout())
    {
      if base.levels != [] {
        PutLead();
      }
      base.CountValue(isString);
    }

    /** What PrettyPrefix puts inside a container. */
    method PutLead()
      requires base.levels != []
      modifies base`os
      ensures base.os == old(base.os) + Lead(base.levels, Layout())
    {
      var level := TopLevel(base.levels);
      if level.inArray {
        if level.valueCount > 0 {
          base.Put(COMMA);
        }
        NewLine();
      } else if level.valueCount % 2 == 0 {
        if level.valueCount > 0 {
          base.Put(COMMA);
        }
        NewLine();
      } else {
        base.Put(COLON);
        base.Put(SPACE);
      }
    }

    /** Any handler call. */
    method Handle(e: Event)
      requires WriteEvent(Now(), Layout(), e).Some?
      modifies base
      ensures Some(Now()) == WriteEvent(old(Now()), Layout(), e)
    {
      hide Led, PutText, QuotedThen, IntegerText;
      match e
      case StartObject => Open(false);
      case StartArray => Open(true);
      case EndObject(_) => Close(false);
      case EndArray(_) => Close(true);
      case _ => Scalar(e);
    }

    method Scalar(e: Event)
      requires !e.StartObject? && !e.StartArray? && !e.EndObject? && !e.EndArray?
      requires MayWrite(Now(), e.String? || e.Key?)
      modifies base
      ensures Some(Now()) == WriteEvent(old(Now()), Layout(), e)
    {
      hide Lead, QuotedThen, IntegerText;
      PrettyPrefix(e.String? || e.Key?);
      base.WriteEventText(e);
    }

    method Open(inArray: bool)
      requires MayWrite(Now(), false)
      modifies base
      ensures Some(Now()) == WriteOpen(old(Now()), Layout(), inArray)
    {
      PrettyPrefix(false);
      base.levels := base.levels + [Level(0, inArray)];
      base.Put(if inArray then LBRACKET else LBRACE);
    }

    method Close(inArray: bool)
      requires base.levels != [] && TopLevel(base.levels).inArray == inArray
      modifies base
      ensures Some(Now()) == WriteClose(old(Now()), Layout(), inArray)
    {
      var empty := TopLevel(base.levels).valueCount == 0;
      base.levels := Popped(base.levels);
      ghost var gap := if empty then [] else Gap(Layout(), |base.levels|);
      if !empty {
        NewLine();
      }
      assert base.os == old(base.os) + gap;
      base.Put(if inArray then RBRACKET else RBRACE);
      assert base.os == old(base.os) + (gap + [if inArray then RBRACKET else RBRACE]);
    }
  }

  /** The writer Accept is given. */
  datatype Sink = Compactly(w: Writer) | Prettily(p: PrettyWriter) {
    ghost function Repr(): set<object> {
      if Compactly? then {w} else {p.base}
    }

    ghost function Now(): Page
      reads Repr()
    {
      if Compactly? then w.Now() else p.Now()
    }

    ghost function Shape(): Layout
      reads if Prettily? then {p} else {}
    {
      if Compactly? then Compact else p.Layout()
    }

    method Handle(e: Event)
      requires WriteEvent(Now(), Shape(), e).Some?
      modifies Repr()
      ensures Some(Now()) == WriteEvent(old(Now()), old(Shape()), e) && Shape() == old(Shape())
    {
      match this
      case Compactly(w) => w.Handle(e);
      case Prettily(p) => p.Handle(e);
    }
  }

  /** GenericValue::Accept into either writer: the handler receives the value's events. */
  method Accept(v: Value, k: Sink)
    requires WellFormed(v) && WriteAll(k.Now(), k.Shape(), Events(v, FromDom)).Some?
    modifies k.Repr()
    ensures Some(k.Now()) == WriteAll(old(k.Now()), old(k.Shape()), Events(v, FromDom))
    ensures k.Shape() == old(k.Shape())
    decreases v, 1
  {
    ghost var lay := k.Shape();
    match v
    case ArrayValue(vs) => AcceptArray(vs, k);
    case ObjectValue(ms) => AcceptObject(ms, k);
    case _ =>
      WriteOne(k.Now(), lay, Events(v, FromDom)[0]);
      k.Handle(Events(v, FromDom)[0]);
  }

  method AcceptArray(vs: seq<Value>, k: Sink)
    requires forall i | 0 <= i < |vs| :: WellFormed(vs[i])
    requires WriteAll(k.Now(), k.Shape(), Events(ArrayValue(vs), FromDom)).Some?
    modifies k.Repr()
    ensures Some(k.Now()) == WriteAll(old(k.Now()), old(k.Shape()), Events(ArrayValue(vs), FromDom))
    ensures k.Shape() == old(k.Shape())
    decreases vs, 0
  {
    hide WriteEvent, WellFormed;
    ghost var lay := k.Shape();
    ghost var es := Events(ArrayValue(vs), FromDom);
    ghost var close := [EndArray(|vs|)];
    assert es == [StartArray] + (ElementEvents(vs, FromDom) + close);
    k.Handle(StartArray);
    assert vs[0..] == vs;
    var i := 0;
    while i < |vs|
      invariant 0 <= i <= |vs| && k.Shape() == lay
      invariant WriteAll(k.Now(), lay, ElementEvents(vs[i..], FromDom) + close)
             == WriteAll(old(k.Now()), lay, es)
    {
      ghost var rest := ElementEvents(vs[i + 1..], FromDom) + close;
      assert vs[i..][1..] == vs[i + 1..];
      assert ElementEvents(vs[i..], FromDom) + close == Events(vs[i], FromDom) + rest;
      WriteConcat(k.Now(), lay, Events(vs[i], FromDom), rest);
      Accept(vs[i], k);
      i := i + 1;
    }
    assert ElementEvents(vs[i..], FromDom) + close == close;
    WriteOne(k.Now(), lay, EndArray(|vs|));
    k.Handle(EndArray(|vs|));
  }

  method AcceptObject(ms: seq<Member>, k: Sink)
    requires forall i | 0 <= i < |ms| :: WellFormed(ms[i].value)
    requires WriteAll(k.Now(), k.Shape(), Events(ObjectValue(ms), FromDom)).Some?
    modifies k.Repr()
    ensures Some(k.Now()) == WriteAll(old(k.Now()), old(k.Shape()), Events(ObjectValue(ms), FromDom))
    ensures k.Shape() == old(k.Shape())
    decreases ms, 0
  {
    hide WriteEvent, WellFormed;
    ghost var lay := k.Shape();
    ghost var es := Events(ObjectValue(ms), FromDom);
    ghost var close := [EndObject(|ms|)];
    assert es == [StartObject] + (MemberEvents(ms, FromDom) + close);
    k.Handle(StartObject);
    assert ms[0..] == ms;
    var i := 0;
    while i < |ms|
      invariant 0 <= i <= |ms| && k.Shape() == lay
      invariant WriteAll(k.Now(), lay, MemberEvents(ms[i..], FromDom) + close)
             == WriteAll(old(k.Now()), lay, es)
    {
      ghost var rest := MemberEvents(ms[i + 1..], FromDom) + close;
      assert ms[i..][1..] == ms[i + 1..];
      assert MemberEvents(ms[i..], FromDom) + close == [Key(ms[i].name)] + (Events(ms[i].value, FromDom) + rest);
      k.Handle(Key(ms[i].name));
      WriteConcat(k.Now(), lay, Events(ms[i].value, FromDom), rest);
      Accept(ms[i].value, k);
      i := i + 1;
    }
    assert MemberEvents(ms[i..], FromDom) + close == close;
    WriteOne(k.Now(), lay, EndObject(|ms|));
    k.Handle(EndObject(|ms|));
  }

  /** A document written with a fresh Writer. */
  method Write(v: Value) returns (text: bytes)
    requires WellFormed(v)
    ensures text == Text(v, Compact)
  {
    var w := new Writer();
    DocumentWritten(Compact, v, FromDom);
    Accept(v, Compactly(w));
    text := w.os;
  }

  /** A document written with a fresh PrettyWriter. */
  method WritePretty(v: Value, indentChar: byte, indentCharCount: nat) returns (text: bytes)
    requires WellFormed(v) && IsSpace(indentChar)
    ensures text == Text(v, Pretty(indentChar, indentCharCount))
  {
    var w := new PrettyWriter();
    w.SetIndent(indentChar, indentCharCount);
    DocumentWritten(w.Layout(), v, FromDom);
    Accept(v, Prettily(w));
    text := w.base.os;
  }
}
