/** client_impl's connection state and its reconnection with bounded exponential backoff. */
module SioClient {
  const TWO32: int := 0x1_0000_0000

  /** unsigned. */
  type uint32 = x: int | 0 <= x < TWO32

  datatype ConState = Opening | Opened | Closing | Closed

  /** What a call of the user's waits for until the network thread ends, if anything. */
  datatype Join = NoJoin | ToConnect | ToClose

  /** A reconnect listener's call: how many attempts were made, and the delay before the next. */
  datatype Notice = Notice(made: nat, delay: nat)

  /** The fields, and the network side of them. waiting is a reconnect timer whose wait has neither ended nor
      been cancelled; due counts the waits that have ended with their handlers yet to run, which no cancelling
      stops; linked is a connection made or in the making; joining is a connect or sync_close that waits for the
      network thread to end. announced lists the notices since the last open or accepted connect. */
  datatype Client = Client(
    conState: ConState,
    hasThread: bool,
    attempts: uint32,
    made: uint32,
    delay: uint32,
    delayMax: uint32,
    waiting: bool,
    due: nat,
    linked: bool,
    joining: Join,
    announced: seq<Notice>)

  /** client_impl(). */
  const INITIAL: Client := Client(Closed, false, 0xFFFF_FFFF, 0, 5000, 25000, false, 0, false, NoJoin, [])

  // ---------------------------------------------------------------- the delay

  /** pow(1.5, n). */
  function Growth(n: nat): (g: real)
    ensures g >= 1.0
  {
    if n == 0 then 1.0 else 1.5 * Growth(n - 1)
  }

  function Min(a: nat, b: nat): nat {
    if a < b then a else b
  }

  /** The cast of min(x, max) to unsigned. */
  function Cut(x: real, max: nat): (d: nat)
    requires x >= 0.0
    ensures d <= max
  {
    if x < max as real then x.Floor else max
  }

  function Grown(made: nat, delay: nat): (x: real)
    ensures x >= delay as real >= 0.0
  {
    GrowsBeyond(delay as real, Growth(Min(made, 32)));
    delay as real * Growth(Min(made, 32))
  }

  /** next_delay, over the reals. */
  function NextDelay(made: nat, delay: nat, delayMax: nat): (d: nat)
    ensures d <= delayMax
    ensures delay <= delayMax ==> d >= delay
  {
    Cut(Grown(made, delay), delayMax)
  }

  lemma GrowsBeyond(x: real, g: real)
    requires x >= 0.0 && g >= 1.0
    ensures x * g >= x
  {
    assert x * (g - 1.0) >= 0.0;
  }

  lemma ProductMonotone(x: real, g: real, h: real)
    requires x >= 0.0 && g <= h
    ensures x * g <= x * h
  {
    assert x * (h - g) >= 0.0;
  }

  lemma CutMonotone(x: real, y: real, max: nat)
    requires 0.0 <= x <= y
    ensures Cut(x, max) <= Cut(y, max)
  {
  }

  lemma {:induction false} GrowthMonotone(m: nat, n: nat)
    requires m <= n
    ensures Growth(m) <= Growth(n)
    decreases n
  {
    if m < n {
      GrowthMonotone(m, n - 1);
    }
  }

  lemma GrownMonotone(m: nat, n: nat, delay: nat)
    requires m <= n
    ensures Grown(m, delay) <= Grown(n, delay)
  {
    hide Growth;
    var g, h := Growth(Min(m, 32)), Growth(Min(n, 32));
    GrowthMonotone(Min(m, 32), Min(n, 32));
    ProductMonotone(delay as real, g, h);
    assert Grown(m, delay) == delay as real * g && Grown(n, delay) == delay as real * h;
  }

  /** More attempts never make the delay shorter. */
  lemma DelayMonotone(m: nat, n: nat, delay: nat, delayMax: nat)
    requires m <= n
    ensures NextDelay(m, delay, delayMax) <= NextDelay(n, delay, delayMax)
  {
    hide Growth, Cut, Grown;
    GrownMonotone(m, n, delay);
    CutMonotone(Grown(m, delay), Grown(n, delay), delayMax);
  }

  // ---------------------------------------------------------------- the handlers

  datatype Event =
    | Connect
    | Joined
    | Open
    | Fail
    | Close(normal: bool)
    | Refused
    | Expire
    | Timeout
    | UserClose
    | SyncClose
    | CloseImpl

  /** A connection opens, and fails or closes, while there is one; the network thread ends when nothing is left
      for it to do. */
  predicate Enabled(c: Client, e: Event) {
    match e
    case Connect => c.joining.NoJoin?
    case SyncClose => c.joining.NoJoin?
    case Joined => !c.joining.NoJoin? && !c.waiting && c.due == 0 && !c.linked
    case Open => c.linked
    case Fail => c.linked
    case Close(_) => c.linked
    case Refused => c.linked
    case Expire => c.waiting
    case Timeout => c.due > 0
    case _ => true
  }

  /** Announce the next attempt and start its timer; replacing a timer cancels the old one. */
  function Schedule(c: Client): Client {
    var d := NextDelay(c.made, c.delay, c.delayMax);
    c.(waiting := true, announced := c.announced + [Notice(c.made, d)])
  }

  function Retried(c: Client): Client {
    if c.made < c.attempts then Schedule(c) else c
  }

  /** connect, up to the join: ignored while a connection is opening or open, but for the timer. */
  function OnConnect(c: Client): Client {
    if !c.hasThread then Accepted(c.(waiting := false))
    else if c.conState == Opening || c.conState == Opened then c.(waiting := false)
    else c.(waiting := false, joining := ToConnect)
  }

  /** The rest of connect, with the network thread gone; a new one takes up the connection. */
  function Accepted(c: Client): Client {
    c.(joining := NoJoin, conState := Opening, made := 0, hasThread := true, linked := true, announced := [])
  }

  /** timeout_reconnect after a wait that ended; for one that was cancelled it does nothing. */
  function OnTimeout(c: Client): Client
    requires c.due > 0
  {
    if c.conState == Closed then
      c.(due := c.due - 1, conState := Opening, made := if c.made == TWO32 - 1 then 0 else c.made + 1, linked := true)
    else c.(due := c.due - 1)
  }

  function Lost(c: Client): Client {
    c.(conState := Closed, linked := false)
  }

  function Step(c: Client, e: Event): Client
    requires Enabled(c, e)
  {
    match e
    case Connect => OnConnect(c)
    case Joined => if c.joining.ToConnect? then Accepted(c) else c.(joining := NoJoin, hasThread := false)
    case SyncClose => c.(conState := Closing, joining := if c.hasThread then ToClose else NoJoin)
    case Open => c.(conState := Opened, made := 0, announced := [])
    case Fail => Retried(Lost(c))
    case Close(normal) => if normal then Lost(c) else Retried(Lost(c))
    case Refused => c.(linked := false)
    case Expire => c.(waiting := false, due := c.due + 1)
    case Timeout => OnTimeout(c)
    case UserClose => c.(conState := Closing)
    case CloseImpl => c.(waiting := false)
  }

  /** Every event that can come comes in its turn; one that cannot is passed over. */
  function Run(c: Client, es: seq<Event>): Client
    decreases |es|
  {
    if es == [] then c
    else if Enabled(c, es[0]) then Run(Step(c, es[0]), es[1..])
    else Run(c, es[1..])
  }

  /** A client whose settings were made before it is first connected. */
  function Configured(attempts: uint32, delay: uint32, delayMax: uint32): Client {
    INITIAL.(attempts := attempts, delay := delay, delayMax := delayMax)
  }

  // ---------------------------------------------------------------- the settings

  datatype Setting = SetAttempts(n: uint32) | SetDelay(millis: uint32) | SetDelayMax(millis: uint32)

  function Set(c: Client, s: Setting): Client {
    match s
    case SetAttempts(n) => c.(attempts := n)
    case SetDelay(millis) => c.(delay := millis, delayMax := if c.delayMax < millis then millis else c.delayMax)
    case SetDelayMax(millis) => c.(delayMax := millis, delay := if c.delay > millis then millis else c.delay)
  }

  function SetAll(c: Client, ss: seq<Setting>): Client
    decreases |ss|
  {
    if ss == [] then c else SetAll(Set(c, ss[0]), ss[1..])
  }

  /** The setters in any order keep the delay at or below its maximum. */
  lemma {:induction false} SettersAgree(c: Client, ss: seq<Setting>)
    requires c.delay <= c.delayMax
    ensures SetAll(c, ss).delay <= SetAll(c, ss).delayMax
    decreases |ss|
  {
    if ss != [] {
      SettersAgree(Set(c, ss[0]), ss[1..]);
    }
  }

  // ---------------------------------------------------------------- bounds over every run

  predicate Bounded(c: Client) {
    && c.made <= c.attempts
    && (c.waiting || c.due > 0 ==> c.made < c.attempts)
    && c.due <= 1 && !(c.waiting && c.due > 0)
    && (c.linked || !c.hasThread ==> !c.waiting && c.due == 0)
    && (c.linked ==> c.hasThread)
    && (forall i | 0 <= i < |c.announced| :: Announces(c, c.announced[i]))
    && (forall i, j | 0 <= i < j < |c.announced| :: c.announced[i].made <= c.announced[j].made)
  }

  predicate Announces(c: Client, n: Notice) {
    n.made <= c.made && n.delay == NextDelay(n.made, c.delay, c.delayMax)
  }

  lemma ScheduleBounded(c: Client)
    requires Bounded(c) && c.linked
    ensures Bounded(Retried(Lost(c)))
  {
    hide NextDelay;
  }

  lemma StepBounded(c: Client, e: Event)
    requires Bounded(c) && Enabled(c, e)
    ensures Bounded(Step(c, e))
    ensures Step(c, e).attempts == c.attempts && Step(c, e).delay == c.delay && Step(c, e).delayMax == c.delayMax
  {
    hide NextDelay, Retried;
    if c.linked {
      ScheduleBounded(c);
      RetryKeeps(Lost(c));
    }
  }

  lemma RetryKeeps(c: Client)
    ensures Retried(c).attempts == c.attempts && Retried(c).delay == c.delay && Retried(c).delayMax == c.delayMax
  {
  }

  lemma {:induction false} RunBounded(c: Client, es: seq<Event>)
    requires Bounded(c)
    ensures Bounded(Run(c, es))
    ensures Run(c, es).attempts == c.attempts && Run(c, es).delay == c.delay && Run(c, es).delayMax == c.delayMax
    decreases |es|
  {
    hide Step, Bounded, Enabled;
    if es != [] {
      if Enabled(c, es[0]) {
        StepBounded(c, es[0]);
        RunBounded(Step(c, es[0]), es[1..]);
      } else {
        RunBounded(c, es[1..]);
      }
    }
  }

  /** In every run with fixed settings: the attempts since the last open or accepted connect are never more
      than allowed, no announced delay is above the maximum, and none is shorter than one before it. */
  lemma BackoffBounded(attempts: uint32, delay: uint32, delayMax: uint32, es: seq<Event>)
    ensures var c := Run(Configured(attempts, delay, delayMax), es);
            && c.made <= attempts
            && (forall i | 0 <= i < |c.announced| :: c.announced[i].delay <= delayMax)
            && (forall i, j | 0 <= i < j < |c.announced| :: c.announced[i].delay <= c.announced[j].delay)
  {
    hide Run, NextDelay;
    var c := Run(Configured(attempts, delay, delayMax), es);
    RunBounded(Configured(attempts, delay, delayMax), es);
    forall i, j | 0 <= i < j < |c.announced| ensures c.announced[i].delay <= c.announced[j].delay {
      DelayMonotone(c.announced[i].made, c.announced[j].made, delay, delayMax);
    }
    forall i | 0 <= i < |c.announced| ensures c.announced[i].delay <= delayMax {
      DelayBelow(c.announced[i].made, delay, delayMax);
    }
  }

  lemma DelayBelow(made: nat, delay: nat, delayMax: nat)
    ensures NextDelay(made, delay, delayMax) <= delayMax
  {
  }

  // ---------------------------------------------------------------- the object

  /** client_impl, as far as reconnecting goes. What the network thread has in hand is ghost. */
  class ClientImpl {
    var conState: ConState
    var hasThread: bool
    var attempts: uint32
    var made: uint32
    var delay: uint32
    var delayMax: uint32
    var waiting: bool
    var announced: seq<Notice>
    ghost var due: nat
    ghost var linked: bool
    ghost var joining: Join

    constructor ()
      ensures Now() == INITIAL && Valid()
    {
      conState, hasThread, attempts, made := Closed, false, 0xFFFF_FFFF, 0;
      delay, delayMax, waiting, announced := 5000, 25000, false, [];
      due, linked, joining := 0, false, NoJoin;
    }

    ghost function Now(): Client
      reads this
    {
      Client(conState, hasThread, attempts, made, delay, delayMax, waiting, due, linked, joining, announced)
    }

    /** What the two delay setters keep, in any order of calls. */
    predicate Agree()
      reads this
    {
      delay <= delayMax
    }

    /** Attempts and delays are within their bounds, and at most one wait is under way or ended. */
    ghost predicate Valid()
      reads this
    {
      Agree() && Bounded(Now())
    }

    method SetReconnectAttempts(n: uint32)
      modifies `attempts
      ensures Now() == Set(old(Now()), SetAttempts(n))
      ensures old(Valid()) && made <= n && (waiting || due > 0 ==> made < n) ==> Valid()
    {
      attempts := n;
    }

    method SetReconnectDelay(millis: uint32)
      modifies `delay, `delayMax
      ensures Now() == Set(old(Now()), SetDelay(millis)) && Agree()
      ensures old(Valid()) && announced == [] ==> Valid()
    {
      delay := millis;
      if delayMax < millis { delayMax := millis; }
    }

    method SetReconnectDelayMax(millis: uint32)
      modifies `delay, `delayMax
      ensures Now() == Set(old(Now()), SetDelayMax(millis)) && Agree()
      ensures old(Valid()) && announced == [] ==> Valid()
    {
      delayMax := millis;
      if delay > millis { delay := millis; }
    }

    method Retry()
      modifies `waiting, `announced
      ensures Now() == Retried(old(Now()))
    {
      if made < attempts {
        announced := announced + [Notice(made, NextDelay(made, delay, delayMax))];
        waiting := true;
      }
    }

    /** Up to the join; wait says that there is a thread to join, and done that the call has returned. */
    method Connect() returns (wait: bool, done: bool)
      requires Valid() && joining.NoJoin?
      modifies this
      ensures Valid() && Now() == Step(old(Now()), Event.Connect)
      ensures wait == joining.ToConnect? && done == !wait
    {
      StepBounded(Now(), Event.Connect);
      waiting := false;
      wait, done := false, false;
      if hasThread {
        if conState == Closing || conState == Closed {
          wait, joining := true, ToConnect;
        } else {
          done := true;
        }
      } else {
        Accept();
        done := true;
      }
    }

    /** The rest of connect. */
    method Accept()
      modifies `conState, `hasThread, `made, `linked, `joining, `announced
      ensures Now() == Accepted(old(Now()))
    {
      conState := Opening;
      made := 0;
      announced := [];
      hasThread := true;
      linked, joining := true, NoJoin;
    }

    /** The join has returned. */
    method ConnectJoined()
      requires Valid() && Enabled(Now(), Joined) && joining.ToConnect?
      modifies `conState, `hasThread, `made, `linked, `joining, `announced
      ensures Valid() && Now() == Step(old(Now()), Joined)
    {
      StepBounded(Now(), Joined);
      Accept();
    }

    method OnOpen()
      requires Valid() && linked
      modifies `conState, `made, `announced
      ensures Valid() && Now() == Step(old(Now()), Open)
    {
      conState := Opened;
      made := 0;
      announced := [];
    }

    method OnFail()
      requires Valid() && linked
      modifies `conState, `waiting, `linked, `announced
      ensures Valid() && Now() == Step(old(Now()), Fail)
    {
      hide Retried;
      StepBounded(Now(), Fail);
      conState := Closed;
      linked := false;
      Retry();
    }

    method OnClose(normal: bool)
      requires Valid() && linked
      modifies `conState, `waiting, `linked, `announced
      ensures Valid() && Now() == Step(old(Now()), Event.Close(normal))
    {
      hide Retried;
      StepBounded(Now(), Event.Close(normal));
      conState := Closed;
      linked := false;
      if !normal {
        Retry();
      }
    }

    /** The handler of a wait; aborted says that the wait was cancelled. */
    method TimeoutReconnect(aborted: bool)
      requires Valid() && (!aborted ==> due > 0)
      modifies `conState, `made, `due, `linked
      ensures Valid() && Now() == if aborted then old(Now()) else Step(old(Now()), Timeout)
    {
      if aborted {
        return;
      }
      StepBounded(Now(), Timeout);
      due := due - 1;
      if conState == Closed {
        conState := Opening;
        made := made + 1;
        linked := true;
      }
    }

    /** close, from the user's side. */
    method Close()
      requires Valid()
      modifies `conState
      ensures Valid() && Now() == Step(old(Now()), UserClose)
    {
      conState := Closing;
    }

    /** sync_close, up to the join; wait says that there is a thread to join. */
    method SyncClose() returns (wait: bool)
      requires Valid() && joining.NoJoin?
      modifies `conState, `joining
      ensures Valid() && Now() == Step(old(Now()), Event.SyncClose) && wait == joining.ToClose?
    {
      conState := Closing;
      wait := hasThread;
      joining := if hasThread then ToClose else NoJoin;
    }

    /** The rest of sync_close: the thread is gone. */
    method CloseJoined()
      requires Valid() && Enabled(Now(), Joined) && joining.ToClose?
      modifies `hasThread, `joining
      ensures Valid() && Now() == Step(old(Now()), Joined)
    {
      hasThread := false;
      joining := NoJoin;
    }

    /** The part of close_impl that stops reconnecting. */
    method CloseImpl()
      requires Valid()
      modifies `waiting
      ensures Valid() && Now() == Step(old(Now()), Event.CloseImpl)
    {
      waiting := false;
    }
  }
}
