/** What the socket's one lock does not prevent, and exactly when: a packet queued behind the last drain, and
    a thread left with the null client pointer. */
module SocketHazards {
  import opened Options
  import opened SocketRace

  // ---------------------------------------------------------------- continuations

  ghost predicate NoCalls(run: seq<Action>) {
    forall k | 0 <= k < |run| :: run[k].Step?
  }

  /** Some interleaving takes a to b; without calls, only threads already started move. */
  ghost predicate Leads(a: State, b: State, calls: bool) {
    exists run :: Run(a, run) == Some(b) && (calls || NoCalls(run))
  }

  ghost predicate Reachable(s: State) {
    Leads(Initial(), s, true)
  }

  lemma LeadsNowhere(a: State, calls: bool)
    ensures Leads(a, a, calls)
  {
    assert Run(a, []) == Some(a) && NoCalls([]);
  }

  lemma {:induction false} RunConcat(s: State, run: seq<Action>, a: Action)
    ensures Run(s, run + [a]) == if Run(s, run).Some? then Act(Run(s, run).value, a) else None
    decreases |run|
  {
    hide Act;
    if run == [] {
      assert run + [a] == [a] && [a][1..] == [];
    } else {
      assert (run + [a])[0] == run[0] && (run + [a])[1..] == run[1..] + [a];
      if Act(s, run[0]).Some? {
        RunConcat(Act(s, run[0]).value, run[1..], a);
      }
    }
  }

  lemma LeadsOn(a: State, s: State, act: Action, calls: bool)
    requires Leads(a, s, calls) && Act(s, act).Some? && (calls || act.Step?)
    ensures Leads(a, Act(s, act).value, calls)
  {
    hide Act;
    var run :| Run(a, run) == Some(s) && (calls || NoCalls(run));
    RunConcat(a, run, act);
    assert !calls ==> NoCalls(run + [act]);
  }

  /** A thread's next step, spelled out. */
  lemma Moves(a: State, s: State, t: nat, pc: Pc, e: Effect, calls: bool) returns (s': State)
    requires Leads(a, s, calls)
    requires t < |s.threads| && Chosen(s, t) == Some(Move(pc, e)) && Enabled(s, t, e)
    ensures s' == Apply(s, t, e).(threads := s.threads[t := pc]) && Leads(a, s', calls)
  {
    hide Leads, Chosen;
    s' := Next(s, t).value;
    assert Act(s, Step(t)) == Some(s');
    LeadsOn(a, s, Step(t), calls);
  }

  lemma Starts(a: State, s: State, pc: Pc) returns (s': State)
    requires Leads(a, s, true) && Entry(pc)
    ensures s' == s.(threads := s.threads + [pc]) && Leads(a, s', true)
  {
    hide Leads;
    s' := s.(threads := s.threads + [pc]);
    assert Act(s, Call(pc)) == Some(s');
    LeadsOn(a, s, Call(pc), true);
  }

  lemma ReachableOrderly(s: State)
    requires Reachable(s)
    ensures Orderly(s)
  {
    hide Run;
    var run :| Run(Initial(), run) == Some(s);
    RunOrderly(Initial(), run);
  }

  lemma {:induction false} RunJoins(a: State, run: seq<Action>, run': seq<Action>)
    requires Run(a, run).Some?
    ensures Run(a, run + run') == Run(Run(a, run).value, run')
    decreases |run|
  {
    hide Act;
    if run == [] {
      assert run + run' == run';
    } else {
      assert (run + run')[0] == run[0] && (run + run')[1..] == run[1..] + run';
      RunJoins(Act(a, run[0]).value, run[1..], run');
    }
  }

  lemma ReachableOn(a: State, b: State, calls: bool)
    requires Reachable(a) && Leads(a, b, calls)
    ensures Reachable(b)
  {
    hide Run;
    var run :| Run(Initial(), run) == Some(a);
    var run' :| Run(a, run') == Some(b);
    RunJoins(Initial(), run, run');
    assert Run(Initial(), run + run') == Some(b);
  }

  // ---------------------------------------------------------------- packets left behind

  /** A thread that will still drain the queue: on_connected from the moment it may set the flag. */
  predicate Drainer(pc: Pc) {
    pc.OpenSet? || pc.OpenNotify? || pc.OpenLock? || pc.OpenLocked? || pc.OpenUnlock? || pc.OpenFront?
  }

  ghost predicate NonePushing(s: State) {
    forall t | 0 <= t < |s.threads| :: !s.threads[t].PushLock?
  }

  ghost predicate SomeDrains(s: State) {
    exists t | 0 <= t < |s.threads| :: Drainer(s.threads[t])
  }

  ghost predicate NoneWriting(s: State) {
    forall t | 0 <= t < |s.threads| :: !s.threads[t].PushLocked?
  }

  /** While connected nobody waits to queue a packet, and what is queued still has its drainer. */
  ghost predicate Served(s: State) {
    && Orderly(s)
    && (s.connected ==> NonePushing(s) && ((s.queue == [] && NoneWriting(s)) || SomeDrains(s)))
  }

  /** Wherever a thread sets the flag in the run, no sender stands between its unconnected branch and the lock. */
  ghost predicate NoSenderPassed(s: State, run: seq<Action>)
    decreases |run|
  {
    run == [] ||
    match Act(s, run[0])
    case None => true
    case Some(s') =>
      && (run[0].Step? && s.threads[run[0].t].OpenSet? ==> NonePushing(s))
      && NoSenderPassed(s', run[1..])
  }

  /** What a step of a thread does to the roles above. */
  lemma MoveRoles(pc: Pc, client: bool, connected: bool, front: Option<Packet>)
    requires Decide(pc, client, connected, front).Some?
    ensures var move := Decide(pc, client, connected, front).value;
            && (move.pc.PushLock? ==> pc.SendBranch? && !connected)
            && (move.pc.PushLocked? ==> pc.PushLock?)
            && (move.effect.Push? <==> pc.PushLocked?)
            && (move.effect.Connect? && move.effect.b <==> pc.OpenSet?)
            && (Drainer(pc) && !Drainer(move.pc) ==> pc.OpenLocked? && front.None? && move.effect.Nothing?)
  {
  }

  /** What a step does to the queue and the flag. */
  lemma EffectShows(s: State, t: nat, e: Effect)
    requires Enabled(s, t, e)
    ensures var s' := Apply(s, t, e);
            && s'.threads == s.threads
            && (s.queue == [] && !e.Push? ==> s'.queue == [])
            && (s'.connected && !(e.Connect? && e.b) ==> s.connected)
            && (s'.client ==> s.client) && (s.client && !e.TakeClient? ==> s'.client)
  {
  }

  lemma Sets(s: State, t: nat)
    requires t < |s.threads| && s.threads[t].OpenSet?
    ensures Next(s, t).Some? && Drainer(Next(s, t).value.threads[t])
  {
  }

  lemma NextServed(s: State, t: nat)
    requires t < |s.threads| && Served(s) && Next(s, t).Some?
    requires s.threads[t].OpenSet? ==> NonePushing(s)
    ensures Served(Next(s, t).value)
  {
    hide Decide, Locked, Apply, Drainer;
    var s', move := Next(s, t).value, Chosen(s, t).value;
    NextOrderly(s, t);
    MoveRoles(s.threads[t], s.client, s.connected, Front(s.queue));
    EffectShows(s, t, move.effect);
    assert s'.threads == s.threads[t := move.pc];
    if s'.connected {
      assert NonePushing(s');
      if s.threads[t].OpenSet? {
        Sets(s, t);
      } else if s.queue == [] && NoneWriting(s) {
        assert NoneWriting(s');
      } else {
        StillDrained(s, t);
      }
    }
  }

  /** The drainer goes on draining, unless it holds the lock and finds the queue empty. */
  lemma StillDrained(s: State, t: nat)
    requires t < |s.threads| && Orderly(s) && SomeDrains(s) && Next(s, t).Some?
    ensures var s' := Next(s, t).value; SomeDrains(s') || (s'.queue == [] && NoneWriting(s'))
  {
    hide Decide, Apply, Drainer;
    var s', move := Next(s, t).value, Chosen(s, t).value;
    MoveRoles(s.threads[t], s.client, s.connected, Front(s.queue));
    EffectShows(s, t, move.effect);
    var d: nat :| d < |s.threads| && Drainer(s.threads[d]);
    if d != t {
      assert Drainer(s'.threads[d]);
    } else if Drainer(move.pc) {
      assert Drainer(s'.threads[t]);
    } else {
      forall u | 0 <= u < |s'.threads| ensures !s'.threads[u].PushLocked? {
        assert u != t ==> s'.threads[u] == s.threads[u] && !Locked(s.threads[u]);
      }
    }
  }

  lemma CallServed(s: State, pc: Pc)
    requires Served(s) && Entry(pc)
    ensures Served(s.(threads := s.threads + [pc]))
  {
    var s' := s.(threads := s.threads + [pc]);
    if SomeDrains(s) {
      var d: nat :| d < |s.threads| && Drainer(s.threads[d]);
      assert Drainer(s'.threads[d]);
    }
  }

  lemma {:induction false} RunServed(s: State, run: seq<Action>)
    requires Served(s) && Run(s, run).Some? && NoSenderPassed(s, run)
    ensures Served(Run(s, run).value)
    decreases |run|
  {
    hide Next, Served, NonePushing;
    if run != [] {
      match run[0] {
        case Call(pc) => CallServed(s, pc);
        case Step(t) => NextServed(s, t);
      }
      RunServed(Act(s, run[0]).value, run[1..]);
    }
  }

  ghost predicate AllReturned(s: State) {
    forall t | 0 <= t < |s.threads| :: s.threads[t].Returned?
  }

  /** Connected, nobody at work, and still a packet in the queue. */
  ghost predicate Stranded(s: State) {
    AllReturned(s) && s.connected && s.queue != []
  }

  /** In every interleaving where no sender stands between its unconnected branch and the lock when the flag
      is set, no packet is left behind. */
  lemma NoneLeftBehind(run: seq<Action>)
    requires Run(Initial(), run).Some? && NoSenderPassed(Initial(), run)
    ensures !Stranded(Run(Initial(), run).value)
  {
    hide Run, NoSenderPassed;
    RunServed(Initial(), run);
  }

  /** on_connected from the flag to its loop. */
  lemma Opens(a: State, s: State, t: nat, calls: bool) returns (s': State)
    requires Leads(a, s, calls) && t < |s.threads| && s.threads[t] == OpenSet && s.client
    ensures s' == s.(threads := s.threads[t := OpenLock], connected := true) && Leads(a, s', calls)
  {
    hide Leads;
    s' := Moves(a, s, t, OpenNotify, Connect(true), calls);
    s' := Moves(a, s', t, OpenLock, Nothing, calls);
    assert s'.threads == s.threads[t := OpenLock];
  }

  lemma DrainsOne(a: State, s: State, t: nat, calls: bool) returns (s': State)
    requires Leads(a, s, calls) && t < |s.threads| && s.threads[t] == OpenLocked && s.client && s.queue != []
    ensures Leads(a, s', calls)
    ensures var x := s.queue[0];
            s' == s.(threads := s.threads[t := OpenLock], queue := s.queue[1..], popped := s.popped + [x],
                     sent := s.sent + [x], lock := None)
  {
    hide Leads;
    var x := s.queue[0];
    s' := Moves(a, s, t, OpenUnlock(x), Pop, calls);
    s' := Moves(a, s', t, OpenFront(x), Release, calls);
    s' := Moves(a, s', t, OpenLock, Send(x), calls);
    assert s'.threads == s.threads[t := OpenLock];
  }

  /** The drain loop of on_connected, undisturbed: everything queued is sent. */
  lemma {:induction false} Drains(a: State, s: State, t: nat, calls: bool) returns (s': State)
    requires Leads(a, s, calls) && t < |s.threads| && s.threads[t] == OpenLock && s.client && s.lock.None?
    ensures Leads(a, s', calls)
    ensures s' == s.(threads := s.threads[t := Returned], queue := [], popped := s.popped + s.queue,
                     sent := s.sent + s.queue)
    decreases |s.queue|
  {
    hide Leads;
    s' := Moves(a, s, t, OpenLocked, Acquire, calls);
    if s.queue == [] {
      s' := Moves(a, s', t, OpenBreak, Nothing, calls);
      s' := Moves(a, s', t, Returned, Release, calls);
      assert s'.threads == s.threads[t := Returned];
      assert s.popped + s.queue == s.popped && s.sent + s.queue == s.sent;
    } else {
      s' := DrainsOne(a, s', t, calls);
      s' := Drains(a, s', t, calls);
      var x := s.queue[0];
      assert s'.threads == s.threads[t := Returned];
      assert s.popped + [x] + s.queue[1..] == s.popped + s.queue;
      assert s.sent + [x] + s.queue[1..] == s.sent + s.queue;
    }
  }

  /** A sender past its branch queues its packet. */
  lemma Pushes(a: State, s: State, t: nat, calls: bool) returns (s': State)
    requires Leads(a, s, calls) && t < |s.threads| && s.threads[t].PushLock? && s.lock.None?
    ensures var p := s.threads[t].p;
            s' == s.(threads := s.threads[t := Returned], queue := s.queue + [p], pushed := s.pushed + [p])
    ensures Leads(a, s', calls)
  {
    hide Leads;
    var p := s.threads[t].p;
    s' := Moves(a, s, t, PushLocked(p), Acquire, calls);
    s' := Moves(a, s', t, PushUnlock, Push(p), calls);
    s' := Moves(a, s', t, Returned, Release, calls);
    assert s'.threads == s.threads[t := Returned];
  }

  /** From any state with the flag about to be set behind a sender's back, the two threads alone can leave the
      sender's packet in the queue of a connected socket, and nobody to send it. */
  lemma LeftBehind(s: State, t: nat, u: nat) returns (s': State)
    requires t < |s.threads| && s.threads[t].OpenSet? && u < |s.threads| && s.threads[u].PushLock?
    requires s.client && s.lock.None?
    ensures Leads(s, s', false)
    ensures s'.threads == s.threads[t := Returned][u := Returned]
    ensures s'.connected && s'.client && s'.lock.None? && s'.queue == [s.threads[u].p]
  {
    hide Leads;
    LeadsNowhere(s, false);
    s' := Opens(s, s, t, false);
    s' := Drains(s, s', t, false);
    s' := Pushes(s, s', u, false);
    assert s'.threads == s.threads[t := Returned][u := Returned];
  }

  /** All senders that wait queue their packets, one after the other. */
  lemma {:induction false} PushAll(a: State, s: State, i: nat) returns (s': State)
    requires Leads(a, s, false) && i <= |s.threads| && s.lock.None?
    requires forall u | 0 <= u < |s.threads| :: s.threads[u].Returned? || (i <= u && s.threads[u].PushLock?)
    ensures Leads(a, s', false) && AllReturned(s') && s'.connected == s.connected
    ensures s.queue != [] || (exists u | 0 <= u < |s.threads| :: s.threads[u].PushLock?) ==> s'.queue != []
    decreases |s.threads| - i
  {
    hide Leads;
    s' := s;
    if i < |s.threads| {
      if s.threads[i].PushLock? {
        s' := Pushes(a, s, i, false);
      }
      s' := PushAll(a, s', i + 1);
    }
  }

  /** Only on_connected moves: no thread that could push. */
  ghost predicate Alone(s: State, t: nat) {
    && t < |s.threads|
    && (s.threads[t].Returned? || s.threads[t].OpenBreak? || Drainer(s.threads[t]))
    && (forall u | 0 <= u < |s.threads| && u != t :: s.threads[u].Returned?)
  }

  lemma {:induction false} AlonePassesNone(s: State, run: seq<Action>, t: nat)
    requires Alone(s, t) && NoCalls(run)
    ensures NoSenderPassed(s, run)
    decreases |run|
  {
    if run != [] {
      var r := Act(s, run[0]);
      if r.Some? {
        assert run[0].t == t;
        assert Alone(r.value, t);
        AlonePassesNone(r.value, run[1..], t);
      }
    }
  }

  /** At the moment the flag is about to be set, with everyone else returned or waiting to queue a packet: a
      packet can be left behind if and only if somebody waits. */
  lemma StrandedExactly(s: State, t: nat)
    requires Reachable(s) && s.client && s.lock.None?
    requires t < |s.threads| && s.threads[t].OpenSet?
    requires forall u | 0 <= u < |s.threads| && u != t :: s.threads[u].Returned? || s.threads[u].PushLock?
    ensures (exists s' :: Leads(s, s', false) && Stranded(s')) <==> !NonePushing(s)
  {
    hide Leads, Run, Reachable, NoSenderPassed;
    if NonePushing(s) {
      ReachableOrderly(s);
      forall s' | Leads(s, s', false) ensures !Stranded(s') {
        var run := Witness(s, s', false);
        AlonePassesNone(s, run, t);
        assert Drainer(s.threads[t]);
        RunServed(s, run);
      }
    } else {
      LeadsNowhere(s, false);
      var s' := Opens(s, s, t, false);
      s' := Drains(s, s', t, false);
      var u: nat :| u < |s.threads| && s.threads[u].PushLock?;
      assert s'.threads[u].PushLock?;
      s' := PushAll(s, s', 0);
      assert Stranded(s');
    }
  }

  lemma Witness(a: State, b: State, calls: bool) returns (run: seq<Action>)
    requires Leads(a, b, calls)
    ensures Run(a, run) == Some(b) && (calls || NoCalls(run))
  {
    run :| Run(a, run) == Some(b) && (calls || NoCalls(run));
  }

  /** Such a state is reached: a sender finds the socket unconnected, then on_connected passes it. */
  lemma PacketStranded(p: Packet) returns (s: State)
    ensures Reachable(s) && Stranded(s) && s.client && s.queue == [p]
  {
    hide Leads;
    var a := Initial();
    LeadsNowhere(a, true);
    s := Starts(a, a, SendEntry(p));
    s := Starts(a, s, OpenEntry);
    s := Moves(a, s, 0, SendBranch(p), Accept(p), true);
    s := Moves(a, s, 0, PushLock(p), Nothing, true);
    s := Moves(a, s, 1, OpenBranch, Nothing, true);
    s := Moves(a, s, 1, OpenSet, Nothing, true);
    ghost var before := s;
    s := LeftBehind(before, 1, 0);
    ReachableOn(before, s, false);
  }

  // ---------------------------------------------------------------- the null pointer

  /** The next step of the thread goes through the client pointer, or through the copy on_close took. */
  predicate Derefs(pc: Pc) {
    pc.SendFront? || pc.SendOwn? || pc.OpenNotify? || pc.OpenFront?
  }

  /** The thread is a closer whose copy is null: another closer was faster. */
  predicate Lost(pc: Pc) {
    || pc == CloseNull(false) || pc == CloseSet(false) || pc == CloseTell(false)
    || pc == ClearLock(Tell(false)) || pc == ClearLocked(Tell(false)) || pc == ClearUnlock(Tell(false))
  }

  ghost predicate NullUsed(s: State, t: nat) {
    t < |s.threads| && ((Derefs(s.threads[t]) && !s.client) || s.threads[t] == CloseTell(false))
  }

  /** A thread that cannot move has returned, waits for the lock, or would go through a null pointer. */
  lemma StuckExactly(s: State, t: nat)
    requires t < |s.threads|
    ensures Next(s, t).None? <==>
            || s.threads[t].Returned?
            || (Chosen(s, t).Some? && Chosen(s, t).value.effect.Acquire? && s.lock.Some?)
            || NullUsed(s, t)
  {
  }

  /** Past its null check, with a use of the pointer still to come. A drain loop of on_connected that holds
      the lock and sees the queue empty has none. */
  predicate Using(s: State, t: nat)
    requires t < |s.threads|
  {
    var pc := s.threads[t];
    || pc.SendBranch? || pc.SendLock? || pc.SendLocked? || pc.SendUnlock? || pc.SendBreak?
    || pc.OpenBranch? || pc.OpenSet? || pc.OpenLock? || pc.OpenUnlock?
    || (pc.OpenLocked? && s.queue != [])
    || Derefs(pc) || pc.CloseTake? || Lost(pc)
  }

  ghost predicate NoneUsing(s: State) {
    forall u | 0 <= u < |s.threads| :: !Using(s, u)
  }

  /** Nobody lost the pointer, and once it is null nobody counts on it. */
  ghost predicate Attended(s: State) {
    && Orderly(s)
    && (forall u | 0 <= u < |s.threads| :: !Lost(s.threads[u]))
    && (s.client || NoneUsing(s))
  }

  /** Wherever on_close clears the pointer in the run, no other thread is using it. */
  ghost predicate TakenUnused(s: State, run: seq<Action>)
    decreases |run|
  {
    run == [] ||
    match Act(s, run[0])
    case None => true
    case Some(s') =>
      && (run[0].Step? && s.threads[run[0].t].CloseNull? ==>
            forall u | 0 <= u < |s.threads| && u != run[0].t :: !Using(s, u))
      && TakenUnused(s', run[1..])
  }

  /** A thread that does not use the pointer, or has none to use, stays so. */
  lemma StaysUnused(s: State, t: nat)
    requires t < |s.threads| && Orderly(s) && Next(s, t).Some?
    requires !Using(s, t)
    ensures Using(Next(s, t).value, t) ==> s.client && Entry(s.threads[t])
  {
  }

  lemma OthersUnused(s: State, t: nat, u: nat)
    requires t < |s.threads| && u < |s.threads| && u != t && Orderly(s) && Next(s, t).Some?
    requires !Using(s, u)
    ensures !Using(Next(s, t).value, u)
  {
    hide Apply, Derefs, Lost, Decide;
    var move := Chosen(s, t).value;
    MoveRoles(s.threads[t], s.client, s.connected, Front(s.queue));
    EffectShows(s, t, move.effect);
    assert Next(s, t).value.threads[u] == s.threads[u];
    if s.threads[u].OpenLocked? {
      assert Locked(s.threads[u]) && !Locked(s.threads[t]);
    }
  }

  lemma NextAttended(s: State, t: nat)
    requires t < |s.threads| && Attended(s) && Next(s, t).Some?
    requires s.threads[t].CloseNull? ==> forall u | 0 <= u < |s.threads| && u != t :: !Using(s, u)
    ensures Attended(Next(s, t).value)
  {
    hide Decide, Apply, Using;
    var s', move := Next(s, t).value, Chosen(s, t).value;
    NextOrderly(s, t);
    EffectShows(s, t, move.effect);
    OwnStep(s, t);
    forall u | 0 <= u < |s'.threads| && u != t ensures s'.threads[u] == s.threads[u] {
    }
    if !s'.client {
      forall u | 0 <= u < |s'.threads| ensures !Using(s', u) {
        if u != t {
          assert !Using(s, u) by {
            if s.client { OnlyTakes(s, t); }
          }
          OthersUnused(s, t, u);
        }
      }
    }
  }

  lemma OnlyTakes(s: State, t: nat)
    requires t < |s.threads| && Next(s, t).Some? && s.client && !Next(s, t).value.client
    ensures s.threads[t].CloseNull?
  {
  }

  /** The thread that moves: it loses nothing, and uses nothing that is gone. */
  lemma OwnStep(s: State, t: nat)
    requires t < |s.threads| && Attended(s) && Next(s, t).Some?
    ensures !Lost(Next(s, t).value.threads[t])
    ensures !Next(s, t).value.client ==> !Using(Next(s, t).value, t)
  {
    if s.client {
      assert !Lost(s.threads[t]);
    } else {
      assert !Using(s, t);
      StaysUnused(s, t);
    }
  }

  lemma CallAttended(s: State, pc: Pc)
    requires Attended(s) && Entry(pc)
    ensures Attended(s.(threads := s.threads + [pc]))
  {
    var s' := s.(threads := s.threads + [pc]);
    forall u | 0 <= u < |s'.threads| ensures !Lost(s'.threads[u]) && (!s.client ==> !Using(s', u)) {
      assert u < |s.threads| ==> s'.threads[u] == s.threads[u];
      if u < |s.threads| && !s.client {
        assert !Using(s, u);
      }
    }
  }

  lemma {:induction false} RunAttended(s: State, run: seq<Action>)
    requires Attended(s) && Run(s, run).Some? && TakenUnused(s, run)
    ensures Attended(Run(s, run).value)
    decreases |run|
  {
    hide Next, Attended, Using;
    if run != [] {
      match run[0] {
        case Call(pc) => CallAttended(s, pc);
        case Step(t) => NextAttended(s, t);
      }
      RunAttended(Act(s, run[0]).value, run[1..]);
    }
  }

  /** In every interleaving where on_close clears the pointer only while no other thread is using it, no thread
      ever meets a null pointer. */
  lemma NullNeverMet(run: seq<Action>, t: nat)
    requires Run(Initial(), run).Some? && TakenUnused(Initial(), run)
    ensures !NullUsed(Run(Initial(), run).value, t)
  {
    hide Run, TakenUnused;
    RunAttended(Initial(), run);
    var s := Run(Initial(), run).value;
    assert t < |s.threads| && !s.client ==> !Using(s, t);
  }

  // ---------------------------------------------------------------- how a thread comes to meet it

  /** b extends a run from a reachable a, with thread t about to clear a pointer that is not null yet. */
  ghost predicate Poised(a: State, b: State, t: nat) {
    Reachable(a) && Leads(a, b, true) && b.client && t < |b.threads| && b.threads[t].CloseNull?
  }

  lemma PoisedOrderly(a: State, b: State)
    requires Reachable(a) && Leads(a, b, true)
    ensures Orderly(b)
  {
    ReachableOn(a, b, true);
    ReachableOrderly(b);
  }

  /** How far a thread inside the lock is from leaving it, in on_disconnect after clearing the queue. */
  function Phase(pc: Pc): nat {
    if pc.SendLocked? || pc.PushLocked? || pc.OpenLocked? || pc.ClearLocked? then 1 else 0
  }

  lemma LockedStep(s: State, v: nat)
    requires v < |s.threads| && Locked(s.threads[v]) && s.lock == Some(v)
    ensures Next(s, v).Some?
    ensures var s' := Next(s, v).value;
            && s'.client == s.client && s'.connected == s.connected
            && s'.threads == s.threads[v := s'.threads[v]]
            && (s'.lock.Some? ==>
                  && s'.lock == Some(v) && Locked(s'.threads[v])
                  && (Phase(s'.threads[v]) < Phase(s.threads[v])
                      || (s'.threads[v] == s.threads[v] && |s'.queue| < |s.queue|)))
  {
  }

  /** Whoever holds the lock can leave it, moving alone. */
  lemma {:induction false} FreesLock(a: State, s: State) returns (s': State)
    requires Reachable(a) && Leads(a, s, true)
    ensures Leads(a, s', true) && s'.lock.None? && s'.client == s.client && s'.connected == s.connected
    ensures |s'.threads| == |s.threads|
    ensures forall u | 0 <= u < |s.threads| && !Locked(s.threads[u]) :: s'.threads[u] == s.threads[u]
    decreases if s.lock.Some? && s.lock.value < |s.threads| then Phase(s.threads[s.lock.value]) else 0, |s.queue|
  {
    hide Leads, Locked, Next, Phase, Reachable;
    s' := s;
    if s.lock.Some? {
      var v := s.lock.value;
      PoisedOrderly(a, s);
      LockedStep(s, v);
      s' := Next(s, v).value;
      assert Act(s, Step(v)) == Some(s');
      LeadsOn(a, s, Step(v), true);
      if s'.lock.Some? {
        s' := FreesLock(a, s');
      }
    }
  }

  /** A connect packet makes the socket connected. */
  lemma Connects(a: State, s: State) returns (s': State)
    requires Leads(a, s, true) && s.client
    ensures Leads(a, s', true) && s.threads <= s'.threads
    ensures s' == s.(threads := s'.threads, connected := true)
  {
    hide Leads;
    s' := s;
    if !s.connected {
      var n := |s.threads|;
      s' := Starts(a, s, OpenEntry);
      s' := Moves(a, s', n, OpenBranch, Nothing, true);
      s' := Moves(a, s', n, OpenSet, Nothing, true);
      s' := Moves(a, s', n, OpenNotify, Connect(true), true);
    }
  }

  /** A disconnect makes it unconnected. */
  lemma Disconnects(a: State, s: State) returns (s': State)
    requires Leads(a, s, true) && s.client
    ensures Leads(a, s', true) && s.threads <= s'.threads
    ensures s' == s.(threads := s'.threads, connected := false)
  {
    hide Leads;
    s' := s;
    if s.connected {
      var n := |s.threads|;
      s' := Starts(a, s, DropEntry);
      s' := Moves(a, s', n, DropBranch, Nothing, true);
      s' := Moves(a, s', n, DropSet, Nothing, true);
      s' := Moves(a, s', n, ClearLock(Done), Connect(false), true);
    }
  }

  /** Another sender fills the queue. */
  lemma Fills(a: State, s: State) returns (s': State)
    requires Leads(a, s, true) && s.client && s.lock.None?
    ensures Leads(a, s', true) && s.threads <= s'.threads && s'.client && s'.lock.None? && s'.queue != []
  {
    hide Leads;
    s' := Disconnects(a, s);
    var n := |s'.threads|;
    s' := Starts(a, s', SendEntry(0));
    s' := Moves(a, s', n, SendBranch(0), Accept(0), true);
    s' := Moves(a, s', n, PushLock(0), Nothing, true);
    ghost var before := s';
    s' := Pushes(a, before, n, true);
    assert s.threads <= before.threads;
  }

  /** A thread that may still come to use the pointer: it uses it already, or has its null check ahead. */
  predicate Exposed(s: State, u: nat)
    requires u < |s.threads|
  {
    Using(s, u) || s.threads[u].SendEntry? || s.threads[u].OpenEntry? || s.threads[u].CloseEntry?
  }

  /** How many stretches of the way an exposed thread has before it to its use of the pointer. */
  function Distance(pc: Pc): nat {
    match pc
    case SendEntry(_) => 5
    case SendBranch(_) => 4
    case SendLock(_) => 3
    case SendLocked(_) => 2
    case SendUnlock(_, _) => 1
    case SendBreak(_) => 1
    case OpenEntry => 5
    case OpenBranch => 4
    case OpenSet => 3
    case OpenLock => 3
    case OpenLocked => 2
    case OpenUnlock(_) => 1
    case CloseEntry => 1
    case _ => 0
  }

  predicate Sending(pc: Pc) {
    pc.SendEntry? || pc.SendLocked? || pc.SendUnlock? || pc.SendBreak?
  }

  /** At a branch or at the lock, where others may have to move first. */
  predicate Waiting(pc: Pc) {
    pc.SendBranch? || pc.OpenBranch? || pc.SendLock? || pc.OpenLock?
  }

  /** A step of an exposed thread, with the pointer left where it is. */
  lemma Ahead(a: State, s: State, t: nat, u: nat, pc: Pc, e: Effect) returns (s': State)
    requires Poised(a, s, t) && u < |s.threads| && u != t && !e.TakeClient?
    requires Chosen(s, u) == Some(Move(pc, e)) && Enabled(s, u, e)
    ensures Poised(a, s', t) && u < |s'.threads| && s'.threads[u] == pc && s'.queue == Apply(s, u, e).queue
  {
    hide Leads, Reachable, Chosen;
    s' := Moves(a, s, u, pc, e, true);
  }

  lemma PointerThere(a: State, s: State, t: nat)
    requires Poised(a, s, t)
    ensures s.client
  {
  }

  /** The flag is made what the branch needs. */
  lemma Branches(a: State, s: State, t: nat, u: nat) returns (s': State)
    requires Poised(a, s, t) && u < |s.threads| && u != t && (s.threads[u].SendBranch? || s.threads[u].OpenBranch?)
    ensures Poised(a, s', t) && u < |s'.threads| && Exposed(s', u) && !Lost(s'.threads[u])
    ensures Distance(s'.threads[u]) < Distance(s.threads[u])
  {
    s' := Flagged(a, s, t, u);
    hide Poised;
    if s.threads[u].SendBranch? {
      s' := Ahead(a, s', t, u, SendLock(s.threads[u].p), Nothing);
    } else {
      s' := Ahead(a, s', t, u, OpenSet, Nothing);
    }
  }

  lemma Flagged(a: State, s: State, t: nat, u: nat) returns (s': State)
    requires Poised(a, s, t) && u < |s.threads|
    ensures Poised(a, s', t) && u < |s'.threads| && s'.threads[u] == s.threads[u]
    ensures s'.connected == s.threads[u].SendBranch?
  {
    hide Leads, Reachable;
    if s.threads[u].SendBranch? {
      s' := Connects(a, s);
    } else {
      s' := Disconnects(a, s);
    }
  }

  /** The lock is freed, and for on_connected the queue filled. */
  lemma Acquires(a: State, s: State, t: nat, u: nat) returns (s': State)
    requires Poised(a, s, t) && u < |s.threads| && u != t && (s.threads[u].SendLock? || s.threads[u].OpenLock?)
    ensures Poised(a, s', t) && u < |s'.threads| && Exposed(s', u) && !Lost(s'.threads[u])
    ensures Distance(s'.threads[u]) < Distance(s.threads[u])
  {
    hide Poised;
    s' := Freed(a, s, t, u);
    if s.threads[u].SendLock? {
      s' := Ahead(a, s', t, u, SendLocked(s.threads[u].p), Acquire);
    } else {
      s' := Ahead(a, s', t, u, OpenLocked, Acquire);
    }
  }

  lemma Freed(a: State, s: State, t: nat, u: nat) returns (s': State)
    requires Poised(a, s, t) && u < |s.threads| && (s.threads[u].SendLock? || s.threads[u].OpenLock?)
    ensures Poised(a, s', t) && u < |s'.threads| && s'.threads[u] == s.threads[u]
    ensures s'.lock.None? && (s.threads[u].OpenLock? ==> s'.queue != [])
  {
    hide Leads, Reachable;
    assert !Locked(s.threads[u]) && !Locked(s.threads[t]);
    hide Locked;
    s' := FreesLock(a, s);
    if s.threads[u].OpenLock? && s'.queue == [] {
      s' := Fills(a, s');
    }
  }

  lemma SenderNearer(a: State, s: State, t: nat, u: nat) returns (s': State)
    requires Poised(a, s, t) && u < |s.threads| && u != t && Exposed(s, u)
    requires !Derefs(s.threads[u]) && !s.threads[u].CloseTake? && !Lost(s.threads[u])
    requires Sending(s.threads[u])
    ensures Poised(a, s', t) && u < |s'.threads| && Exposed(s', u) && !Lost(s'.threads[u])
    ensures Distance(s'.threads[u]) < Distance(s.threads[u])
  {
    hide Poised;
    PointerThere(a, s, t);
    match s.threads[u]
    case SendEntry(p) => s' := Ahead(a, s, t, u, SendBranch(p), Accept(p));
    case SendLocked(p) =>
      if s.queue == [] {
        s' := Ahead(a, s, t, u, SendBreak(p), Nothing);
      } else {
        s' := Ahead(a, s, t, u, SendUnlock(p, s.queue[0]), Pop);
      }
    case SendUnlock(p, x) => s' := Ahead(a, s, t, u, SendFront(p, x), Release);
    case SendBreak(p) => s' := Ahead(a, s, t, u, SendOwn(p), Release);
  }

  lemma OpenerNearer(a: State, s: State, t: nat, u: nat) returns (s': State)
    requires Poised(a, s, t) && u < |s.threads| && u != t && Exposed(s, u)
    requires !Derefs(s.threads[u]) && !s.threads[u].CloseTake? && !Lost(s.threads[u])
    requires !Sending(s.threads[u]) && !Waiting(s.threads[u]) && !s.threads[u].OpenLocked? && !s.threads[u].OpenUnlock?
    ensures Poised(a, s', t) && u < |s'.threads| && Exposed(s', u) && !Lost(s'.threads[u])
    ensures Distance(s'.threads[u]) < Distance(s.threads[u])
  {
    hide Poised;
    PointerThere(a, s, t);
    match s.threads[u]
    case OpenEntry => s' := Ahead(a, s, t, u, OpenBranch, Nothing);
    case OpenSet => s' := Ahead(a, s, t, u, OpenNotify, Connect(true));
    case CloseEntry => s' := Ahead(a, s, t, u, CloseTake, Nothing);
  }

  lemma DrainNearer(a: State, s: State, t: nat, u: nat) returns (s': State)
    requires Poised(a, s, t) && u < |s.threads| && u != t && Exposed(s, u)
    requires s.threads[u].OpenLocked? || s.threads[u].OpenUnlock?
    ensures Poised(a, s', t) && u < |s'.threads| && Exposed(s', u) && !Lost(s'.threads[u])
    ensures Distance(s'.threads[u]) < Distance(s.threads[u])
  {
    hide Poised;
    match s.threads[u]
    case OpenLocked => s' := Ahead(a, s, t, u, OpenUnlock(s.queue[0]), Pop);
    case OpenUnlock(x) => s' := Ahead(a, s, t, u, OpenFront(x), Release);
  }

  /** One stretch further, while the pointer is there. */
  lemma Nearer(a: State, s: State, t: nat, u: nat) returns (s': State)
    requires Poised(a, s, t) && u < |s.threads| && u != t && Exposed(s, u)
    requires !Derefs(s.threads[u]) && !s.threads[u].CloseTake? && !Lost(s.threads[u])
    ensures Poised(a, s', t) && u < |s'.threads| && Exposed(s', u) && !Lost(s'.threads[u])
    ensures Distance(s'.threads[u]) < Distance(s.threads[u])
  {
    hide Poised, Exposed, Lost, Distance, Derefs;
    if s.threads[u].SendLock? || s.threads[u].OpenLock? {
      s' := Acquires(a, s, t, u);
    } else if s.threads[u].SendBranch? || s.threads[u].OpenBranch? {
      s' := Branches(a, s, t, u);
    } else if Sending(s.threads[u]) {
      s' := SenderNearer(a, s, t, u);
    } else if s.threads[u].OpenLocked? || s.threads[u].OpenUnlock? {
      s' := DrainNearer(a, s, t, u);
    } else {
      s' := OpenerNearer(a, s, t, u);
    }
  }

  lemma {:induction false} Nears(a: State, s: State, t: nat, u: nat) returns (s': State)
    requires Poised(a, s, t) && u < |s.threads| && u != t && Exposed(s, u) && !Lost(s.threads[u])
    ensures Poised(a, s', t) && u < |s'.threads| && (Derefs(s'.threads[u]) || s'.threads[u].CloseTake?)
    decreases Distance(s.threads[u])
  {
    hide Poised, Exposed, Lost, Distance;
    s' := s;
    if !Derefs(s.threads[u]) && !s.threads[u].CloseTake? {
      s' := Nearer(a, s, t, u);
      s' := Nears(a, s', t, u);
    }
  }

  /** A closer whose copy is null goes on to use it. */
  lemma Tells(a: State, s: State, u: nat) returns (s': State)
    requires Reachable(a) && Leads(a, s, true) && u < |s.threads| && s.threads[u] == CloseSet(false)
    ensures Leads(a, s', true) && u < |s'.threads| && s'.threads[u] == CloseTell(false)
  {
    hide Leads, Reachable;
    s' := Moves(a, s, u, ClearLock(Tell(false)), Connect(false), true);
    s' := FreesLock(a, s');
    s' := Moves(a, s', u, ClearLocked(Tell(false)), Acquire, true);
    s' := Clears(a, s', u);
    s' := Moves(a, s', u, CloseTell(false), Release, true);
  }

  lemma {:induction false} Clears(a: State, s: State, u: nat) returns (s': State)
    requires Leads(a, s, true) && u < |s.threads| && s.threads[u].ClearLocked?
    ensures Leads(a, s', true) && s'.threads == s.threads[u := ClearUnlock(s.threads[u].after)]
    decreases |s.queue|
  {
    hide Leads;
    var after := s.threads[u].after;
    if s.queue == [] {
      s' := Moves(a, s, u, ClearUnlock(after), Nothing, true);
    } else {
      s' := Moves(a, s, u, ClearLocked(after), Clear, true);
      s' := Clears(a, s', u);
    }
  }

  /** A closer finds the pointer null only once it is. */
  lemma {:induction false} RunLost(s: State, run: seq<Action>, u: nat)
    requires Run(s, run).Some? && (u < |s.threads| && Lost(s.threads[u]) ==> !s.client)
    ensures var s' := Run(s, run).value; u < |s'.threads| && Lost(s'.threads[u]) ==> !s'.client
    decreases |run|
  {
    hide Next, Lost;
    if run != [] {
      match run[0] {
        case Call(pc) => EntryKnows(pc);
        case Step(t) => NextLost(s, t, u);
      }
      RunLost(Act(s, run[0]).value, run[1..], u);
    }
  }

  lemma EntryKnows(pc: Pc)
    requires Entry(pc)
    ensures !Lost(pc)
  {
  }

  lemma NextLost(s: State, t: nat, u: nat)
    requires t < |s.threads| && Next(s, t).Some? && (u < |s.threads| && Lost(s.threads[u]) ==> !s.client)
    ensures var s' := Next(s, t).value; u < |s'.threads| && Lost(s'.threads[u]) ==> !s'.client
  {
  }

  lemma ReachableLost(s: State, u: nat)
    requires Reachable(s) && u < |s.threads| && s.client
    ensures !Lost(s.threads[u])
  {
    hide Run;
    var run := Witness(Initial(), s, true);
    RunLost(Initial(), run, u);
  }

  /** No call that is past its last use of the pointer ever uses it. */
  lemma {:induction false} NeverUses(s: State, run: seq<Action>, u: nat)
    requires Orderly(s) && u < |s.threads| && !Exposed(s, u) && Run(s, run).Some?
    ensures !NullUsed(Run(s, run).value, u)
    decreases |run|
  {
    hide Next, Exposed, Derefs, Orderly, Entry;
    if run == [] {
      NotYetUsed(s, u);
    } else {
      var s' := Act(s, run[0]).value;
      match run[0] {
        case Call(pc) =>
          assert s'.threads[u] == s.threads[u];
          CallUnexposed(s, pc, u);
        case Step(t) =>
          NextOrderly(s, t);
          NotExposed(s, t, u);
      }
      NeverUses(s', run[1..], u);
    }
  }

  lemma NotYetUsed(s: State, u: nat)
    requires u < |s.threads| && !Exposed(s, u)
    ensures !NullUsed(s, u)
  {
  }

  lemma CallUnexposed(s: State, pc: Pc, u: nat)
    requires Orderly(s) && Entry(pc) && u < |s.threads| && !Exposed(s, u)
    ensures var s' := s.(threads := s.threads + [pc]); Orderly(s') && !Exposed(s', u)
  {
    var s' := s.(threads := s.threads + [pc]);
    assert s'.threads[u] == s.threads[u];
  }

  lemma NotExposed(s: State, t: nat, u: nat)
    requires t < |s.threads| && u < |s.threads| && Orderly(s) && !Exposed(s, u) && Next(s, t).Some?
    ensures u < |Next(s, t).value.threads| && !Exposed(Next(s, t).value, u)
  {
    if t == u {
      StaysUnused(s, t);
      StaysIn(s, t);
    } else {
      OthersUnused(s, t, u);
    }
  }

  /** No step leads back to a null check. */
  lemma StaysIn(s: State, t: nat)
    requires t < |s.threads| && Next(s, t).Some?
    ensures !Entry(Next(s, t).value.threads[t])
  {
    hide Decide, Apply, Entry, Enabled;
    NoWayBack(s.threads[t], s.client, s.connected, Front(s.queue));
    EffectShows(s, t, Chosen(s, t).value.effect);
  }

  lemma NoWayBack(pc: Pc, client: bool, connected: bool, front: Option<Packet>)
    requires Decide(pc, client, connected, front).Some?
    ensures !Entry(Decide(pc, client, connected, front).value.pc)
  {
  }

  /** When on_close is about to clear the pointer, another thread can come to meet it null if and only if its
      null check is still ahead, or passed with a use of the pointer to come. */
  lemma NullMetExactly(s: State, t: nat, u: nat)
    requires Reachable(s) && s.client && t < |s.threads| && s.threads[t].CloseNull?
    requires u < |s.threads| && u != t
    ensures (exists s' :: Leads(s, s', true) && NullUsed(s', u)) <==> Exposed(s, u)
  {
    hide Leads, Run, Reachable, Exposed, Lost, Derefs, Orderly;
    if Exposed(s, u) {
      LeadsNowhere(s, true);
      ReachableLost(s, u);
      var s' := Nears(s, s, t, u);
      var was := s'.threads[u];
      s' := Moves(s, s', t, CloseSet(s'.threads[t].had), TakeClient, true);
      if was.CloseTake? {
        s' := Moves(s, s', u, CloseNull(false), Nothing, true);
        s' := Moves(s, s', u, CloseSet(false), TakeClient, true);
        s' := Tells(s, s', u);
      }
      assert NullUsed(s', u);
    } else {
      ReachableOrderly(s);
      forall s' | Leads(s, s', true) ensures !NullUsed(s', u) {
        var run := Witness(s, s', true);
        NeverUses(s, run, u);
      }
    }
  }

  /** It happens: on_close runs between a sender's null check and its send. */
  lemma NullClientReached(p: Packet) returns (s: State)
    ensures Reachable(s) && NullUsed(s, 0) && s.threads[0] == SendOwn(p)
  {
    hide Leads;
    var a := Initial();
    LeadsNowhere(a, true);
    s := Starts(a, a, SendEntry(p));
    s := Moves(a, s, 0, SendBranch(p), Accept(p), true);
    s := Connects(a, s);
    s := Moves(a, s, 0, SendLock(p), Nothing, true);
    s := Moves(a, s, 0, SendLocked(p), Acquire, true);
    s := Moves(a, s, 0, SendBreak(p), Nothing, true);
    s := Moves(a, s, 0, SendOwn(p), Release, true);
    var n := |s.threads|;
    s := Starts(a, s, CloseEntry);
    s := Moves(a, s, n, CloseTake, Nothing, true);
    s := Moves(a, s, n, CloseNull(true), Nothing, true);
    s := Moves(a, s, n, CloseSet(true), TakeClient, true);
  }
}
