/** A call that nothing comes between: what the steps of one thread amount to when it runs from entry to return by
    itself. */
module SocketSerial {
  import opened Options
  import opened SocketRace

  /** n steps of thread t alone. */
  function Alone(s: State, t: nat, n: nat): Option<State> {
    if n == 0 then Some(s)
    else
      match Alone(s, t, n - 1)
      case None => None
      case Some(s') => if t < |s'.threads| then Next(s', t) else None
  }

  /** Thread t alone takes s to s'. */
  ghost predicate Comes(s: State, t: nat, s': State) {
    exists n: nat :: Alone(s, t, n) == Some(s')
  }

  lemma ComesNowhere(s: State, t: nat)
    ensures Comes(s, t, s)
  {
    assert Alone(s, t, 0) == Some(s);
  }

  lemma Goes(a: State, s: State, t: nat, pc: Pc, e: Effect) returns (s': State)
    requires Comes(a, t, s)
    requires t < |s.threads| && Chosen(s, t) == Some(Move(pc, e)) && Enabled(s, t, e)
    ensures s' == Apply(s, t, e).(threads := s.threads[t := pc]) && Comes(a, t, s')
  {
    hide Chosen;
    s' := Next(s, t).value;
    var n: nat :| Alone(a, t, n) == Some(s);
    assert Alone(a, t, n + 1) == Some(s');
  }

  // ---------------------------------------------------------------- the loops

  lemma {:induction false} SendDrains(a: State, s: State, t: nat) returns (s': State)
    requires Comes(a, t, s) && t < |s.threads| && s.threads[t].SendLock? && s.client && s.lock.None?
    ensures Comes(a, t, s')
    ensures var p := s.threads[t].p;
            s' == s.(threads := s.threads[t := SendOwn(p)], queue := [], popped := s.popped + s.queue,
                     sent := s.sent + s.queue)
    decreases |s.queue|
  {
    hide Comes;
    var p := s.threads[t].p;
    s' := Goes(a, s, t, SendLocked(p), Acquire);
    if s.queue == [] {
      s' := Goes(a, s', t, SendBreak(p), Nothing);
      s' := Goes(a, s', t, SendOwn(p), Release);
      assert s'.threads == s.threads[t := SendOwn(p)];
      assert s.popped + s.queue == s.popped && s.sent + s.queue == s.sent;
    } else {
      s' := SendDrainsOne(a, s', t);
      s' := SendDrains(a, s', t);
      var x := s.queue[0];
      assert s'.threads == s.threads[t := SendOwn(p)];
      assert s.popped + [x] + s.queue[1..] == s.popped + s.queue;
      assert s.sent + [x] + s.queue[1..] == s.sent + s.queue;
    }
  }

  lemma SendDrainsOne(a: State, s: State, t: nat) returns (s': State)
    requires Comes(a, t, s) && t < |s.threads| && s.threads[t].SendLocked? && s.client && s.queue != []
    ensures Comes(a, t, s')
    ensures var p, x := s.threads[t].p, s.queue[0];
            s' == s.(threads := s.threads[t := SendLock(p)], queue := s.queue[1..], popped := s.popped + [x],
                     sent := s.sent + [x], lock := None)
  {
    hide Comes;
    var p, x := s.threads[t].p, s.queue[0];
    s' := Goes(a, s, t, SendUnlock(p, x), Pop);
    s' := Goes(a, s', t, SendFront(p, x), Release);
    s' := Goes(a, s', t, SendLock(p), Send(x));
    assert s'.threads == s.threads[t := SendLock(p)];
  }

  lemma {:induction false} OpenDrains(a: State, s: State, t: nat) returns (s': State)
    requires Comes(a, t, s) && t < |s.threads| && s.threads[t] == OpenLock && s.client && s.lock.None?
    ensures Comes(a, t, s')
    ensures s' == s.(threads := s.threads[t := Returned], queue := [], popped := s.popped + s.queue,
                     sent := s.sent + s.queue)
    decreases |s.queue|
  {
    hide Comes;
    s' := Goes(a, s, t, OpenLocked, Acquire);
    if s.queue == [] {
      s' := Goes(a, s', t, OpenBreak, Nothing);
      s' := Goes(a, s', t, Returned, Release);
      assert s'.threads == s.threads[t := Returned];
      assert s.popped + s.queue == s.popped && s.sent + s.queue == s.sent;
    } else {
      var x := s.queue[0];
      s' := OpenDrainsOne(a, s', t);
      s' := OpenDrains(a, s', t);
      assert s'.threads == s.threads[t := Returned];
      assert s.popped + [x] + s.queue[1..] == s.popped + s.queue;
      assert s.sent + [x] + s.queue[1..] == s.sent + s.queue;
    }
  }

  lemma OpenDrainsOne(a: State, s: State, t: nat) returns (s': State)
    requires Comes(a, t, s) && t < |s.threads| && s.threads[t] == OpenLocked && s.client && s.queue != []
    ensures Comes(a, t, s')
    ensures var x := s.queue[0];
            s' == s.(threads := s.threads[t := OpenLock], queue := s.queue[1..], popped := s.popped + [x],
                     sent := s.sent + [x], lock := None)
  {
    hide Comes;
    var x := s.queue[0];
    s' := Goes(a, s, t, OpenUnlock(x), Pop);
    s' := Goes(a, s', t, OpenFront(x), Release);
    s' := Goes(a, s', t, OpenLock, Send(x));
    assert s'.threads == s.threads[t := OpenLock];
  }

  /** The clearing loop, under one lock. */
  lemma {:induction false} Clears(a: State, s: State, t: nat, after: After) returns (s': State)
    requires Comes(a, t, s) && t < |s.threads| && s.threads[t] == ClearLocked(after)
    ensures Comes(a, t, s')
    ensures s' == s.(threads := s.threads[t := if after.Done? then Returned else CloseTell(after.had)], queue := [],
                     popped := s.popped + s.queue, cleared := s.cleared + s.queue, lock := None)
    decreases |s.queue|
  {
    hide Comes;
    if s.queue == [] {
      s' := Goes(a, s, t, ClearUnlock(after), Nothing);
      s' := Goes(a, s', t, if after.Done? then Returned else CloseTell(after.had), Release);
      assert s'.threads == s.threads[t := if after.Done? then Returned else CloseTell(after.had)];
      assert s.popped + s.queue == s.popped && s.cleared + s.queue == s.cleared;
    } else {
      var x := s.queue[0];
      s' := Goes(a, s, t, ClearLocked(after), Clear);
      assert s'.threads == s.threads;
      s' := Clears(a, s', t, after);
      assert s.popped + [x] + s.queue[1..] == s.popped + s.queue;
      assert s.cleared + [x] + s.queue[1..] == s.cleared + s.queue;
    }
  }

  // ---------------------------------------------------------------- whole calls

  /** send_packet: nothing on a closed socket; on a connected one the queue and then the packet go to the client; on
      any other the packet is queued. */
  lemma SendAlone(s: State, t: nat, p: Packet)
    requires t < |s.threads| && s.threads[t] == SendEntry(p) && s.lock.None?
    ensures var done := s.(threads := s.threads[t := Returned]);
            Comes(s, t,
              if !s.client then done
              else if s.connected then
                done.(sent := s.sent + s.queue + [p], queue := [], popped := s.popped + s.queue,
                      accepted := s.accepted + [p])
              else done.(queue := s.queue + [p], pushed := s.pushed + [p], accepted := s.accepted + [p]))
  {
    hide Comes;
    ComesNowhere(s, t);
    if !s.client {
      var s' := Goes(s, s, t, Returned, Nothing);
    } else {
      var s' := Goes(s, s, t, SendBranch(p), Accept(p));
      if s.connected {
        s' := Goes(s, s', t, SendLock(p), Nothing);
        s' := SendDrains(s, s', t);
        s' := Goes(s, s', t, Returned, Send(p));
        assert s'.threads == s.threads[t := Returned];
      } else {
        s' := Goes(s, s', t, PushLock(p), Nothing);
        s' := Goes(s, s', t, PushLocked(p), Acquire);
        s' := Goes(s, s', t, PushUnlock, Push(p));
        s' := Goes(s, s', t, Returned, Release);
        assert s'.threads == s.threads[t := Returned];
      }
    }
  }

  lemma OpenRest(a: State, s: State, t: nat) returns (s': State)
    requires Comes(a, t, s) && t < |s.threads| && s.threads[t] == OpenSet && s.client && s.lock.None?
    ensures Comes(a, t, s')
    ensures s' == s.(threads := s.threads[t := Returned], connected := true, queue := [], popped := s.popped + s.queue,
                     sent := s.sent + s.queue)
  {
    hide Comes;
    s' := Goes(a, s, t, OpenNotify, Connect(true));
    s' := Goes(a, s', t, OpenLock, Nothing);
    s' := OpenDrains(a, s', t);
    assert s'.threads == s.threads[t := Returned];
  }

  /** on_connected: connected from then on, and the queue sent, unless the socket is closed or connected already. */
  lemma OpenAlone(s: State, t: nat)
    requires t < |s.threads| && s.threads[t] == OpenEntry && s.lock.None?
    ensures var done := s.(threads := s.threads[t := Returned]);
            Comes(s, t,
              if !s.client || s.connected then done
              else done.(connected := true, sent := s.sent + s.queue, queue := [], popped := s.popped + s.queue))
  {
    hide Comes;
    ComesNowhere(s, t);
    if !s.client {
      var s' := Goes(s, s, t, Returned, Nothing);
    } else {
      var s' := Goes(s, s, t, OpenBranch, Nothing);
      if s.connected {
        s' := Goes(s, s', t, Returned, Nothing);
        assert s'.threads == s.threads[t := Returned];
      } else {
        s' := Goes(s, s', t, OpenSet, Nothing);
        s' := OpenRest(s, s', t);
        assert s'.threads == s.threads[t := Returned];
      }
    }
  }

  lemma FlagCleared(s: State, t: nat, after: After)
    requires t < |s.threads| && s.threads[t] == if after.Done? then DropSet else CloseSet(after.had)
    ensures Chosen(s, t) == Some(Move(ClearLock(after), Connect(false)))
  {
  }

  lemma LockTaken(s: State, t: nat, after: After)
    requires t < |s.threads| && s.threads[t] == ClearLock(after)
    ensures Chosen(s, t) == Some(Move(ClearLocked(after), Acquire))
  {
  }

  /** The flag, and the clearing loop. */
  lemma Disconnects(a: State, s: State, t: nat, after: After) returns (s': State)
    requires Comes(a, t, s) && t < |s.threads| && s.lock.None?
    requires s.threads[t] == if after.Done? then DropSet else CloseSet(after.had)
    ensures Comes(a, t, s')
    ensures s' == s.(threads := s.threads[t := if after.Done? then Returned else CloseTell(after.had)],
                     connected := false, queue := [], popped := s.popped + s.queue, cleared := s.cleared + s.queue)
  {
    hide Comes, Chosen;
    FlagCleared(s, t, after);
    s' := Goes(a, s, t, ClearLock(after), Connect(false));
    LockTaken(s', t, after);
    s' := Goes(a, s', t, ClearLocked(after), Acquire);
    s' := Clears(a, s', t, after);
    assert s'.threads == s.threads[t := if after.Done? then Returned else CloseTell(after.had)];
  }

  /** on_disconnect: the queue of a connected socket is cleared, and it is connected no more. */
  lemma DropAlone(s: State, t: nat)
    requires t < |s.threads| && s.threads[t] == DropEntry && s.lock.None?
    ensures var done := s.(threads := s.threads[t := Returned]);
            Comes(s, t,
              if !s.client || !s.connected then done
              else done.(connected := false, queue := [], popped := s.popped + s.queue, cleared := s.cleared + s.queue))
  {
    hide Comes;
    ComesNowhere(s, t);
    if !s.client {
      var s' := Goes(s, s, t, Returned, Nothing);
    } else {
      var s' := Goes(s, s, t, DropBranch, Nothing);
      if !s.connected {
        s' := Goes(s, s', t, Returned, Nothing);
        assert s'.threads == s.threads[t := Returned];
      } else {
        s' := Goes(s, s', t, DropSet, Nothing);
        s' := Disconnects(s, s', t, Done);
        assert s'.threads == s.threads[t := Returned];
      }
    }
  }

  lemma Takes(a: State, s: State, t: nat) returns (s': State)
    requires Comes(a, t, s) && t < |s.threads| && s.threads[t] == CloseEntry && s.client
    ensures Comes(a, t, s') && s' == s.(threads := s.threads[t := CloseSet(true)], client := false)
  {
    hide Comes;
    s' := Goes(a, s, t, CloseTake, Nothing);
    s' := Goes(a, s', t, CloseNull(true), Nothing);
    s' := Goes(a, s', t, CloseSet(true), TakeClient);
    assert s'.threads == s.threads[t := CloseSet(true)];
  }

  /** on_close: the pointer is gone, the socket connected no more, and the queue cleared. */
  lemma CloseAlone(s: State, t: nat)
    requires t < |s.threads| && s.threads[t] == CloseEntry && s.lock.None?
    ensures var done := s.(threads := s.threads[t := Returned]);
            Comes(s, t,
              if !s.client then done
              else done.(client := false, connected := false, queue := [], popped := s.popped + s.queue,
                         cleared := s.cleared + s.queue))
  {
    hide Comes;
    ComesNowhere(s, t);
    if !s.client {
      var s' := Goes(s, s, t, Returned, Nothing);
    } else {
      var s' := Takes(s, s, t);
      s' := Disconnects(s, s', t, Tell(true));
      s' := Goes(s, s', t, Returned, Nothing);
      assert s'.threads == s.threads[t := Returned];
    }
  }
}
