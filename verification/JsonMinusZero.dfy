/** Which texts change their events when they are parsed and written back: those with a number -0. */
module JsonMinusZero {
  import opened Bytes
  import opened JsonEvents
  import opened JsonGrammar
  import opened JsonText
  import opened JsonSyntax
  import opened JsonDerives
  import JsonRoundTrip
  import JsonTrees

  /** The literal -0, without fraction and exponent. */
  predicate IsMinusZero(n: Number) {
    n.minus && n.whole == [ZERO] && n.frac == [] && n.exp.NoExp?
  }

  predicate NoMinusZero(v: Tree) {
    match v
    case NumberTree(n) => !IsMinusZero(n)
    case ArrayTree(_, items) => forall i | 0 <= i < |items| :: NoMinusZero(items[i].value)
    case ObjectTree(_, fields) => forall i | 0 <= i < |fields| :: NoMinusZero(fields[i].item.value)
    case _ => true
  }

  lemma {:induction false} LeadCounts(s: bytes)
    requires s != [] && DigitsOk(s) && s[0] != ZERO
    ensures ValueOf(s) > 0
    decreases |s|
  {
    assert DigitsOk(s[..|s| - 1]);
    if |s| > 1 {
      LeadCounts(s[..|s| - 1]);
    }
  }

  lemma NumberIsMinusZero(n: Number)
    requires NumberOk(n)
    ensures NumberHeard(n) == Int(0) <==> IsMinusZero(n)
  {
    hide NumberThen;
    if n.whole[0] == ZERO {
      assert n.whole == [ZERO];
      assert [ZERO][..0] == [] && ValueOf([]) == 0;
      assert ValueOf([ZERO]) == 0;
    } else {
      LeadCounts(n.whole);
    }
  }

  /** A derivation reports a signed 0 exactly where it has a -0. */
  lemma {:induction false} TreeHears(v: Tree)
    requires TreeOk(v)
    ensures Int(0) in TreeEvents(v) <==> !NoMinusZero(v)
    decreases v, 1
  {
    match v
    case NumberTree(n) => NumberIsMinusZero(n);
    case ArrayTree(_, items) => ItemsHear(items);
    case ObjectTree(_, fields) => FieldsHear(fields);
    case _ =>
  }

  lemma {:induction false} ItemsHear(xs: seq<Item>)
    requires forall i | 0 <= i < |xs| :: ItemOk(xs[i])
    ensures Int(0) in ItemEvents(xs) <==> exists i | 0 <= i < |xs| :: !NoMinusZero(xs[i].value)
    decreases xs, 0
  {
    hide NoMinusZero, TreeEvents, TreeOk;
    if xs != [] {
      assert ItemOk(xs[0]);
      TreeHears(xs[0].value);
      ItemsHear(xs[1..]);
      assert forall i | 0 < i < |xs| :: xs[i] == xs[1..][i - 1];
    }
  }

  lemma {:induction false} FieldsHear(xs: seq<Field>)
    requires forall i | 0 <= i < |xs| :: FieldOk(xs[i])
    ensures Int(0) in FieldEvents(xs) <==> exists i | 0 <= i < |xs| :: !NoMinusZero(xs[i].item.value)
    decreases xs, 0
  {
    hide NoMinusZero, TreeEvents, TreeOk;
    if xs != [] {
      assert FieldOk(xs[0]);
      TreeHears(xs[0].item.value);
      FieldsHear(xs[1..]);
      assert forall i | 0 < i < |xs| :: xs[i] == xs[1..][i - 1];
    }
  }

  /** Writing a document back and parsing it again gives the events of the first text if and only if that text
      has no -0. */
  lemma RewrittenAlikeExactly(t: bytes, v: Tree, lay: Layout)
    requires ValidLayout(lay) && DerivesFrom(t, 0, v)
    requires JsonRoundTrip.ParseDom(t).Some? && NoDoubles(JsonRoundTrip.ParseDom(t).value)
    ensures ParseDocument(Text(JsonRoundTrip.ParseDom(t).value, lay), JsonRoundTrip.ALWAYS, false).log
         == ParseDocument(t, JsonRoundTrip.ALWAYS, false).log
         <==> NoMinusZero(v)
  {
    hide ParseFrom, TreeEvents, NoMinusZero, TreeOk, Text;
    var log := ParseDocument(t, JsonRoundTrip.ALWAYS, false).log;
    AcceptsExactly(t, 0, [], JsonRoundTrip.ALWAYS);
    assert log == [] + TreeEvents(v) == TreeEvents(v);
    JsonTrees.RewriteKeepsMeaning(t, lay);
    JsonTrees.PlainExactly(log);
    TreeHears(v);
  }
}
