/** GenericValue::Accept for any handler, one that stops the traversal included. */
module JsonVisitor {
  import opened JsonEvents
  import opened JsonDom

  /** What a handler has heard, and whether it wants more. */
  datatype Hearing = Hearing(log: seq<Event>, going: bool)

  /** Events one after the other, up to the first refusal. */
  function Feed(x: Hearing, es: seq<Event>, h: Handler): Hearing
    decreases |es|
  {
    if es == [] || !x.going then x else Feed(Hearing(x.log + [es[0]], h(x.log + [es[0]])), es[1..], h)
  }

  lemma {:induction false} FeedConcat(x: Hearing, a: seq<Event>, b: seq<Event>, h: Handler)
    ensures Feed(x, a + b, h) == Feed(Feed(x, a, h), b, h)
    decreases |a|
  {
    if a == [] {
      assert a + b == b;
    } else if x.going {
      assert (a + b)[0] == a[0] && (a + b)[1..] == a[1..] + b;
      FeedConcat(Hearing(x.log + [a[0]], h(x.log + [a[0]])), a[1..], b, h);
    }
  }

  lemma FeedOne(x: Hearing, e: Event, h: Handler)
    requires x.going
    ensures Feed(x, [e], h) == Hearing(x.log + [e], h(x.log + [e]))
  {
    assert [e][1..] == [];
  }

  /** The handler refused the last event it heard, and none before it. */
  predicate RefusedLast(log: seq<Event>, es: seq<Event>, k: nat, h: Handler)
    requires 0 < k <= |es|
  {
    !h(log + es[..k]) && forall j | 0 < j < k :: h(log + es[..j])
  }

  /** So a handler hears all events if it never refuses one, else those up to the first it refuses. */
  lemma {:induction false} FeedStops(log: seq<Event>, es: seq<Event>, h: Handler) returns (k: nat)
    ensures k <= |es| && Feed(Hearing(log, true), es, h).log == log + es[..k]
    ensures if Feed(Hearing(log, true), es, h).going then k == |es| && forall j | 0 < j <= k :: h(log + es[..j])
            else k > 0 && RefusedLast(log, es, k, h)
    decreases |es|
  {
    k := 0;
    if es == [] {
      assert log + [] == log;
    } else {
      var log1 := log + [es[0]];
      assert log + es[..1] == log1;
      k := 1;
      if h(log1) {
        k := FeedStops(log1, es[1..], h);
        k := k + 1;
        forall j | 0 < j <= k ensures log1 + es[1..][..j - 1] == log + es[..j] {
          assert es[..j] == [es[0]] + es[1..][..j - 1];
        }
      }
    }
  }

  /** Accept: the value's events, until the handler refuses one. */
  method Visit(v: Value, h: Handler, log: seq<Event>) returns (x: Hearing)
    ensures x == Feed(Hearing(log, true), Events(v, FromDom), h)
    decreases v, 1
  {
    match v
    case ArrayValue(vs) => x := VisitArray(vs, h, log);
    case ObjectValue(ms) => x := VisitObject(ms, h, log);
    case _ =>
      var e := Events(v, FromDom)[0];
      FeedOne(Hearing(log, true), e, h);
      x := Hearing(log + [e], h(log + [e]));
  }

  method VisitArray(vs: seq<Value>, h: Handler, log: seq<Event>) returns (x: Hearing)
    ensures x == Feed(Hearing(log, true), Events(ArrayValue(vs), FromDom), h)
    decreases vs, 0
  {
    hide Feed;
    ghost var all := Feed(Hearing(log, true), Events(ArrayValue(vs), FromDom), h);
    ghost var close := [EndArray(|vs|)];
    x := Say(Hearing(log, true), StartArray, h, ElementEvents(vs, FromDom) + close);
    assert Events(ArrayValue(vs), FromDom) == [StartArray] + (ElementEvents(vs, FromDom) + close);
    assert vs[0..] == vs;
    var i := 0;
    while x.going && i < |vs|
      invariant 0 <= i <= |vs| && Feed(x, ElementEvents(vs[i..], FromDom) + close, h) == all
    {
      assert vs[i..][1..] == vs[i + 1..];
      ghost var rest := ElementEvents(vs[i + 1..], FromDom) + close;
      assert ElementEvents(vs[i..], FromDom) + close == Events(vs[i], FromDom) + rest;
      FeedConcat(x, Events(vs[i], FromDom), rest, h);
      x := Visit(vs[i], h, x.log);
      i := i + 1;
    }
    if x.going {
      assert ElementEvents(vs[i..], FromDom) + close == close + [];
      x := Say(x, EndArray(|vs|), h, []);
    }
    Silent(x, [], h);
    Silent(x, ElementEvents(vs[i..], FromDom) + close, h);
  }

  method VisitObject(ms: seq<Member>, h: Handler, log: seq<Event>) returns (x: Hearing)
    ensures x == Feed(Hearing(log, true), Events(ObjectValue(ms), FromDom), h)
    decreases ms, 0
  {
    hide Feed;
    ghost var all := Feed(Hearing(log, true), Events(ObjectValue(ms), FromDom), h);
    ghost var close := [EndObject(|ms|)];
    x := Say(Hearing(log, true), StartObject, h, MemberEvents(ms, FromDom) + close);
    assert Events(ObjectValue(ms), FromDom) == [StartObject] + (MemberEvents(ms, FromDom) + close);
    assert ms[0..] == ms;
    var i := 0;
    while x.going && i < |ms|
      invariant 0 <= i <= |ms| && Feed(x, MemberEvents(ms[i..], FromDom) + close, h) == all
    {
      assert ms[i..][1..] == ms[i + 1..];
      ghost var rest := MemberEvents(ms[i + 1..], FromDom) + close;
      ghost var body := Events(ms[i].value, FromDom) + rest;
      assert MemberEvents(ms[i..], FromDom) + close == [Key(ms[i].name)] + body;
      x := Say(x, Key(ms[i].name), h, body);
      FeedConcat(x, Events(ms[i].value, FromDom), rest, h);
      if x.going {
        x := Visit(ms[i].value, h, x.log);
      } else {
        Silent(x, Events(ms[i].value, FromDom), h);
      }
      i := i + 1;
    }
    if x.going {
      assert MemberEvents(ms[i..], FromDom) + close == close + [];
      x := Say(x, EndObject(|ms|), h, []);
    }
    Silent(x, [], h);
    Silent(x, MemberEvents(ms[i..], FromDom) + close, h);
  }

  /** One call of the handler. */
  method Say(x: Hearing, e: Event, h: Handler, ghost rest: seq<Event>) returns (y: Hearing)
    requires x.going
    ensures y == Hearing(x.log + [e], h(x.log + [e])) && Feed(y, rest, h) == Feed(x, [e] + rest, h)
  {
    FeedConcat(x, [e], rest, h);
    FeedOne(x, e, h);
    y := Hearing(x.log + [e], h(x.log + [e]));
  }

  lemma Silent(x: Hearing, es: seq<Event>, h: Handler)
    ensures es == [] || !x.going ==> Feed(x, es, h) == x
  {
  }
}
