/** When client_impl reconnects: after which losses, how often, after what delay, and what stops it. */
module SioReconnect {
  import opened SioClient

  // ---------------------------------------------------------------- the delay in whole milliseconds

  function Power(b: nat, n: nat): (p: nat)
    ensures b > 0 ==> p > 0
  {
    if n == 0 then 1 else b * Power(b, n - 1)
  }

  /** The first delay grown by half for each attempt made, up to 32 of them, rounded down and cut at the maximum. */
  function Delay(made: nat, delay: nat, delayMax: nat): nat {
    var grown := Grow(delay, if made < 32 then made else 32);
    if grown < delayMax then grown else delayMax
  }

  /** A product, divided and rounded down. */
  function Quotient(delay: nat, a: nat, b: nat): nat
    requires b > 0
  {
    var product: nat := delay * a;
    product / b
  }

  /** Half as much again, n times, rounded down. */
  function Grow(delay: nat, n: nat): nat {
    Quotient(delay, Power(3, n), Power(2, n))
  }

  lemma {:induction false} GrowthIs(n: nat)
    ensures Growth(n) * Power(2, n) as real == Power(3, n) as real
  {
    if n > 0 {
      GrowthIs(n - 1);
      var g, a, b := Growth(n - 1), Power(2, n - 1), Power(3, n - 1);
      assert 1.5 * g * (2 * a) as real == 3.0 * (g * a as real);
    }
  }

  lemma FloorDivides(x: real, a: nat, b: nat)
    requires b > 0 && x * b as real == a as real
    ensures x >= 0.0 && x.Floor == a / b
  {
    var q, r := a / b, a % b;
    assert a == q * b + r && 0 <= r < b;
    CastProduct(q, b);
    FloorBetween(x, q as real, b as real, r as real);
  }

  lemma CastProduct(a: nat, b: nat)
    ensures (a * b) as real == a as real * b as real
  {
  }

  function Times(x: real, y: real): real {
    x * y
  }

  /** b times x is b times q and a rest less than b. */
  lemma FloorBetween(x: real, q: real, b: real, r: real)
    requires 0.0 <= r < b && 1.0 <= b && x * b == q * b + r
    ensures q <= x < q + 1.0
  {
    assert Times(x, b) == Times(q, b) + r;
    hide Times;
    if x < q {
      ProductBelow(x, q, b);
    } else if x >= q + 1.0 {
      ProductBeyond(x, q, b);
    }
  }

  lemma ProductBelow(x: real, q: real, b: real)
    requires x < q && 1.0 <= b
    ensures Times(x, b) < Times(q, b)
  {
    ProductMonotone(q - x, 1.0, b);
    Spreads(q, x, b);
  }

  lemma ProductBeyond(x: real, q: real, b: real)
    requires x >= q + 1.0 && 1.0 <= b
    ensures Times(x, b) >= Times(q, b) + b
  {
    ProductMonotone(b, 1.0, x - q);
    Spreads(x, q, b);
  }

  lemma Spreads(x: real, q: real, b: real)
    ensures (x - q) * b == b * (x - q) == Times(x, b) - Times(q, b)
  {
  }

  lemma Associates(d: real, g: real, a: real, b: real)
    requires g * b == a
    ensures d * g * b == d * a
  {
  }

  lemma GrownUnfolds(made: nat, delay: nat)
    ensures Grown(made, delay) == delay as real * Growth(Min(made, 32))
  {
  }

  lemma ScaledFloor(x: real, delay: nat, g: real, a: nat, b: nat)
    requires b > 0 && g * b as real == a as real && x == delay as real * g
    ensures x.Floor == Quotient(delay, a, b)
  {
    Associates(delay as real, g, a as real, b as real);
    CastProduct(delay, a);
    FloorDivides(x, delay * a, b);
  }

  lemma GrownIs(made: nat, delay: nat)
    ensures Grown(made, delay).Floor == Grow(delay, Min(made, 32))
  {
    hide Growth, Power, Grown, Quotient, Min;
    var k := Min(made, 32);
    GrowthIs(k);
    GrownUnfolds(made, delay);
    ScaledFloor(Grown(made, delay), delay, Growth(k), Power(3, k), Power(2, k));
  }

  lemma DelayIs(made: nat, delay: nat, delayMax: nat)
    ensures NextDelay(made, delay, delayMax) == Delay(made, delay, delayMax)
  {
    GrownIs(made, delay);
    hide Grown, Grow;
  }

  // ---------------------------------------------------------------- after which losses

  ghost predicate Reachable(c: Client, attempts: uint32, delay: uint32, delayMax: uint32) {
    exists es :: c == Run(Configured(attempts, delay, delayMax), es)
  }

  lemma ReachableBounded(c: Client, attempts: uint32, delay: uint32, delayMax: uint32)
    requires Reachable(c, attempts, delay, delayMax)
    ensures Bounded(c) && c.attempts == attempts && c.delay == delay && c.delayMax == delayMax
  {
    var es :| c == Run(Configured(attempts, delay, delayMax), es);
    RunBounded(Configured(attempts, delay, delayMax), es);
  }

  /** A connection that could not be made, or was lost without a normal close. */
  predicate IsLoss(e: Event) {
    e == Fail || e == Close(false)
  }

  /** After a loss the client is closed, and the reconnect listener is told and the timer started if and only if
      attempts are left; after a normal close nothing of the kind happens. */
  lemma RetriesExactly(c: Client, attempts: uint32, delay: uint32, delayMax: uint32)
    requires Reachable(c, attempts, delay, delayMax) && c.linked
    ensures forall e | IsLoss(e) ::
              var c' := Step(c, e);
              && c'.conState == Closed && !c'.linked
              && (c'.waiting <==> c.made < attempts)
              && c'.announced
                 == c.announced + (if c.made < attempts then [Notice(c.made, Delay(c.made, delay, delayMax))] else [])
    ensures var c' := Step(c, Close(true));
            c'.conState == Closed && !c'.linked && !c'.waiting && c'.announced == c.announced
  {
    ReachableBounded(c, attempts, delay, delayMax);
    DelayIs(c.made, delay, delayMax);
    hide NextDelay, Delay, Reachable;
    assert c.announced + [] == c.announced;
  }

  // ---------------------------------------------------------------- how often

  /** Each loss is waited out. */
  function Rounds(losses: seq<Event>): seq<Event> {
    if losses == [] then [] else [losses[0], Expire, Timeout] + Rounds(losses[1..])
  }

  lemma {:induction false} RunConcat(c: Client, a: seq<Event>, b: seq<Event>)
    ensures Run(c, a + b) == Run(Run(c, a), b)
    decreases |a|
  {
    hide Step, Enabled;
    if a == [] {
      assert a + b == b;
    } else {
      assert (a + b)[0] == a[0] && (a + b)[1..] == a[1..] + b;
      RunConcat(if Enabled(c, a[0]) then Step(c, a[0]) else c, a[1..], b);
    }
  }

  function Tried(c: Client, e: Event): Client {
    if Enabled(c, e) then Step(c, e) else c
  }

  lemma RunThree(c: Client, a: Event, b: Event, d: Event)
    ensures Run(c, [a, b, d]) == Tried(Tried(Tried(c, a), b), d)
  {
    hide Step, Enabled;
    RunFirst(c, [a, b, d]);
    RunFirst(Tried(c, a), [b, d]);
    RunFirst(Tried(Tried(c, a), b), [d]);
    assert [a, b, d][1..] == [b, d] && [b, d][1..] == [d] && [d][1..] == [];
  }

  lemma RunFirst(c: Client, es: seq<Event>)
    requires es != []
    ensures Run(c, es) == Run(Tried(c, es[0]), es[1..])
  {
    hide Step, Enabled;
  }

  /** One round with attempts left: one more is under way. */
  lemma RoundTries(c: Client, e: Event)
    requires Bounded(c) && c.linked && c.made < c.attempts && IsLoss(e)
    ensures var c' := Run(c, [e, Expire, Timeout]);
            Bounded(c') && c'.linked && c'.conState == Opening && c'.made == c.made + 1 && c'.attempts == c.attempts
  {
    RunThree(c, e, Expire, Timeout);
    RunBounded(c, [e, Expire, Timeout]);
    hide Run, NextDelay, Bounded;
    assert !c.waiting && c.due == 0 by { AtRest(c); }
  }

  lemma AtRest(c: Client)
    requires Bounded(c) && c.linked
    ensures !c.waiting && c.due == 0 && c.made <= c.attempts
  {
  }

  /** The client has given up. */
  predicate GivenUp(c: Client) {
    c.conState == Closed && !c.linked && !c.waiting && c.due == 0
  }

  lemma LastRound(c: Client, e: Event)
    requires Bounded(c) && c.linked && c.made == c.attempts && IsLoss(e)
    ensures var c' := Run(c, [e, Expire, Timeout]); GivenUp(c') && c'.made == c.made && c'.attempts == c.attempts
  {
    AtRest(c);
    RunThree(c, e, Expire, Timeout);
    hide Run, NextDelay;
  }

  lemma {:induction false} NoMoreRounds(c: Client, losses: seq<Event>)
    requires GivenUp(c) && forall i | 0 <= i < |losses| :: IsLoss(losses[i])
    ensures Run(c, Rounds(losses)) == c
    decreases |losses|
  {
    if losses != [] {
      RunConcat(c, [losses[0], Expire, Timeout], Rounds(losses[1..]));
      RunThree(c, losses[0], Expire, Timeout);
      NoMoreRounds(c, losses[1..]);
    }
  }

  /** Loss after loss, as many attempts are made as there are losses, up to the number allowed; the client keeps
      trying until there has been one loss more than that, and has then given up. */
  lemma {:induction false} RoundsTry(c: Client, losses: seq<Event>)
    requires Bounded(c) && c.linked && forall i | 0 <= i < |losses| :: IsLoss(losses[i])
    ensures var c' := Run(c, Rounds(losses));
            && c'.made == (if |losses| < c.attempts - c.made then c.made + |losses| else c.attempts)
            && (|losses| > c.attempts - c.made ==> GivenUp(c'))
            && (0 < |losses| <= c.attempts - c.made ==> c'.linked && c'.conState == Opening)
    decreases |losses|
  {
    AtRest(c);
    if losses != [] {
      RunConcat(c, [losses[0], Expire, Timeout], Rounds(losses[1..]));
      var c' := Run(c, [losses[0], Expire, Timeout]);
      hide Run, Bounded;
      if c.made < c.attempts {
        RoundTries(c, losses[0]);
        RoundsTry(c', losses[1..]);
      } else {
        LastRound(c, losses[0]);
        NoMoreRounds(c', losses[1..]);
      }
    }
  }

  /** From an accepted connect on, and from a connection that opened, the attempts are counted afresh: as many are
      made as there are losses, and no more than allowed. */
  lemma AttemptsMade(c: Client, attempts: uint32, delay: uint32, delayMax: uint32, first: Event, losses: seq<Event>)
    requires Reachable(c, attempts, delay, delayMax) && forall i | 0 <= i < |losses| :: IsLoss(losses[i])
    requires (first == Connect && !c.hasThread && c.joining.NoJoin?) || (first == Open && c.linked)
          || (first == Joined && c.joining.ToConnect? && Enabled(c, Joined))
    ensures Run(c, [first] + Rounds(losses)).made == if |losses| < attempts then |losses| else attempts
  {
    ReachableBounded(c, attempts, delay, delayMax);
    hide Reachable;
    StepBounded(c, first);
    assert ([first] + Rounds(losses))[1..] == Rounds(losses);
    RoundsTry(Step(c, first), losses);
  }

  // ---------------------------------------------------------------- what stops it

  /** Whatever is left of the old connection, no attempt will come of it. */
  predicate Quiet(c: Client) {
    !c.linked && !c.waiting && (c.due > 0 ==> c.conState == Closing) && !c.joining.ToConnect?
  }

  predicate Unconnected(es: seq<Event>) {
    forall i | 0 <= i < |es| :: es[i] != Connect
  }

  lemma {:induction false} QuietStays(c: Client, es: seq<Event>)
    requires Quiet(c) && c.conState != Opening && Unconnected(es)
    ensures Run(c, es).conState != Opening && !Run(c, es).linked && Run(c, es).made == c.made
    decreases |es|
  {
    if es != [] {
      QuietStep(c, es[0]);
      hide Step, Enabled, Quiet;
      QuietStays(Tried(c, es[0]), es[1..]);
    }
  }

  lemma QuietStep(c: Client, e: Event)
    requires Quiet(c) && c.conState != Opening && e != Connect
    ensures var c' := Tried(c, e); Quiet(c') && c'.conState != Opening && c'.made == c.made
  {
  }

  /** A close() by the user, once close_impl has run, rules out any further attempt if and only if no connection is
      there or in the making, or no attempts are allowed: close_impl cancels a wait, but a connection that is lost
      later, or fails later, is retried all the same. */
  lemma CloseStopsExactly(c: Client, attempts: uint32, delay: uint32, delayMax: uint32)
    requires Reachable(c, attempts, delay, delayMax) && c.joining.NoJoin?
    ensures var closed := Run(c, [UserClose, CloseImpl]);
            (forall es | Unconnected(es) :: Run(closed, es).conState != Opening) <==> !c.linked || attempts == 0
  {
    ReachableBounded(c, attempts, delay, delayMax);
    hide Reachable;
    RunFirst(c, [UserClose, CloseImpl]);
    var mid := Step(c, UserClose);
    RunFirst(mid, [CloseImpl]);
    var closed := Step(mid, CloseImpl);
    assert [UserClose, CloseImpl][1..] == [CloseImpl] && [CloseImpl][1..] == [];
    StepBounded(c, UserClose);
    StepBounded(mid, CloseImpl);
    if !c.linked {
      forall es | Unconnected(es) ensures Run(closed, es).conState != Opening {
        QuietStays(closed, es);
      }
    } else if attempts == 0 {
      forall es | Unconnected(es) ensures Run(closed, es).conState != Opening {
        NoneAllowed(closed, es);
      }
    } else {
      var es := [Open] + Rounds([Fail]);
      StepBounded(closed, Open);
      RoundsTry(Step(closed, Open), [Fail]);
      assert es[1..] == Rounds([Fail]);
      RunFirst(closed, es);
      assert Rounds([Fail]) == [Fail, Expire, Timeout] + Rounds([]);
      assert Unconnected(es);
    }
  }

  lemma {:induction false} NoneAllowed(c: Client, es: seq<Event>)
    requires Bounded(c) && c.attempts == 0 && c.conState != Opening && !c.joining.ToConnect? && Unconnected(es)
    ensures Run(c, es).conState != Opening
    decreases |es|
  {
    if es != [] {
      if Enabled(c, es[0]) {
        StepBounded(c, es[0]);
        StaysDown(c, es[0]);
      }
      hide Step, Enabled, Bounded;
      NoneAllowed(Tried(c, es[0]), es[1..]);
    }
  }

  lemma StaysDown(c: Client, e: Event)
    requires Bounded(c) && Enabled(c, e) && c.attempts == 0 && c.conState != Opening && !c.joining.ToConnect?
    requires e != Connect
    ensures Step(c, e).conState != Opening && !Step(c, e).joining.ToConnect?
  {
  }

  // ---------------------------------------------------------------- connect and the settings

  /** connect() on a connection that is open or in the making leaves it alone. */
  lemma ConnectLeavesAlone(c: Client, attempts: uint32, delay: uint32, delayMax: uint32, es: seq<Event>)
    requires Reachable(c, attempts, delay, delayMax) && c.linked && c.joining.NoJoin?
    requires c.conState == Opening || c.conState == Opened
    ensures Run(c, [Connect] + es) == Run(c, es)
  {
    ReachableBounded(c, attempts, delay, delayMax);
    AtRest(c);
    assert c.hasThread;
    hide Reachable, Bounded;
    RunFirst(c, [Connect] + es);
    assert ([Connect] + es)[1..] == es;
  }

  lemma {:induction false} SetAllMore(c: Client, ss: seq<Setting>, s: Setting)
    ensures SetAll(c, ss + [s]) == Set(SetAll(c, ss), s)
    decreases |ss|
  {
    hide Set;
    if ss == [] {
      assert ([] + [s])[1..] == [] && ([] + [s])[0] == s;
    } else {
      assert (ss + [s])[0] == ss[0] && (ss + [s])[1..] == ss[1..] + [s];
      SetAllMore(Set(c, ss[0]), ss[1..], s);
    }
  }

  /** Whatever was set before, the last setter has its way; the other delay moves only as far as it must. */
  lemma LastSetterWins(c: Client, ss: seq<Setting>, s: Setting)
    requires c.delay <= c.delayMax
    ensures var b, a := SetAll(c, ss), SetAll(c, ss + [s]);
            && (s.SetAttempts? ==> a.attempts == s.n && a.delay == b.delay && a.delayMax == b.delayMax)
            && (!s.SetAttempts? ==> a.attempts == b.attempts)
            && (s.SetDelay? ==> a.delay == s.millis && (if s.millis > b.delayMax then a.delayMax == s.millis
                                                        else a.delayMax == b.delayMax))
            && (s.SetDelayMax? ==> a.delayMax == s.millis && (if s.millis < b.delay then a.delay == s.millis
                                                              else a.delay == b.delay))
  {
    SetAllMore(c, ss, s);
    SettersAgree(c, ss);
  }

  /** sync_close waits for the network thread if there is one, and leaves none; until then no connect is taken. */
  lemma SyncCloseJoins(c: Client)
    requires c.joining.NoJoin?
    ensures var w := Step(c, SyncClose);
            && w.conState == Closing && w.hasThread == c.hasThread && Enabled(w, Connect) == !c.hasThread
            && (c.hasThread && Enabled(w, Joined) ==>
                  var d := Step(w, Joined); !d.hasThread && d.conState == Closing && Enabled(d, Connect))
  {
  }
}
