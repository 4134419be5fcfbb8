/** socket::impl under concurrency: any number of threads in send_packet, on_connected, on_disconnect and
    on_close, interleaved at every read or write of a shared field and at every lock operation. */
module SocketRace {
  import opened Options

  /** Packets are only moved about and compared, so a number stands for each. */
  type Packet = int

  /** What follows the clearing of the queue: nothing in on_disconnect; in on_close the calls through the
      pointer it took, which had says was not null. */
  datatype After = Done | Tell(had: bool)

  /** The mutex m_packet_mutex guards only the queue; m_client and m_connected are read without it. */
  datatype Pc =
    // send_packet
    | SendEntry(p: Packet)
    | SendBranch(p: Packet)
    | SendLock(p: Packet)
    | SendLocked(p: Packet)
    | SendUnlock(p: Packet, front: Packet)
    | SendBreak(p: Packet)
    | SendFront(p: Packet, front: Packet)
    | SendOwn(p: Packet)
    | PushLock(p: Packet)
    | PushLocked(p: Packet)
    | PushUnlock
    // on_message_packet and on_connected
    | OpenEntry
    | OpenBranch
    | OpenSet
    | OpenNotify
    | OpenLock
    | OpenLocked
    | OpenUnlock(front: Packet)
    | OpenBreak
    | OpenFront(front: Packet)
    // on_disconnect
    | DropEntry
    | DropBranch
    | DropSet
    // on_close
    | CloseEntry
    | CloseTake
    | CloseNull(had: bool)
    | CloseSet(had: bool)
    | CloseTell(had: bool)
    // the clearing loop of both
    | ClearLock(after: After)
    | ClearLocked(after: After)
    | ClearUnlock(after: After)
    | Returned

  /** The shared fields, the threads, and what the client was handed; accepted, pushed, taken and cleared
      are histories. */
  datatype State = State(
    client: bool,
    connected: bool,
    queue: seq<Packet>,
    lock: Option<nat>,
    threads: seq<Pc>,
    sent: seq<Packet>,
    accepted: seq<Packet>,
    pushed: seq<Packet>,
    popped: seq<Packet>,
    cleared: seq<Packet>)

  /** A call begins on a thread of its own, or some thread takes a step. */
  datatype Action = Call(pc: Pc) | Step(t: nat)

  predicate Entry(pc: Pc) {
    pc.SendEntry? || pc.OpenEntry? || pc.DropEntry? || pc.CloseEntry?
  }

  function Initial(): State {
    State(true, false, [], None, [], [], [], [], [], [])
  }

  /** What a step does to the shared fields. */
  datatype Effect =
    | Nothing
    | Acquire
    | Release
    | Pop
    | Clear
    | Push(p: Packet)
    | Send(p: Packet)
    | Accept(p: Packet)
    | Connect(b: bool)
    | TakeClient

  datatype Move = Move(pc: Pc, effect: Effect)

  /** The next step of a thread, given what it reads: the client pointer, m_connected, or the front of
      the queue. */
  function Decide(pc: Pc, client: bool, connected: bool, front: Option<Packet>): Option<Move> {
    match pc
    case SendEntry(p) => Some(if client then Move(SendBranch(p), Accept(p)) else Move(Returned, Nothing))
    case SendBranch(p) => Some(Move(if connected then SendLock(p) else PushLock(p), Nothing))
    case SendLock(p) => Some(Move(SendLocked(p), Acquire))
    case SendLocked(p) =>
      Some(if front.Some? then Move(SendUnlock(p, front.value), Pop) else Move(SendBreak(p), Nothing))
    case SendUnlock(p, x) => Some(Move(SendFront(p, x), Release))
    case SendBreak(p) => Some(Move(SendOwn(p), Release))
    case SendFront(p, x) => Some(Move(SendLock(p), Send(x)))
    case SendOwn(p) => Some(Move(Returned, Send(p)))
    case PushLock(p) => Some(Move(PushLocked(p), Acquire))
    case PushLocked(p) => Some(Move(PushUnlock, Push(p)))
    case PushUnlock => Some(Move(Returned, Release))
    case OpenEntry => Some(Move(if client then OpenBranch else Returned, Nothing))
    case OpenBranch => Some(Move(if connected then Returned else OpenSet, Nothing))
    case OpenSet => Some(Move(OpenNotify, Connect(true)))
    case OpenNotify => if client then Some(Move(OpenLock, Nothing)) else None
    case OpenLock => Some(Move(OpenLocked, Acquire))
    case OpenLocked => Some(if front.Some? then Move(OpenUnlock(front.value), Pop) else Move(OpenBreak, Nothing))
    case OpenUnlock(x) => Some(Move(OpenFront(x), Release))
    case OpenBreak => Some(Move(Returned, Release))
    case OpenFront(x) => Some(Move(OpenLock, Send(x)))
    case DropEntry => Some(Move(if client then DropBranch else Returned, Nothing))
    case DropBranch => Some(Move(if connected then DropSet else Returned, Nothing))
    case DropSet => Some(Move(ClearLock(Done), Connect(false)))
    case CloseEntry => Some(Move(if client then CloseTake else Returned, Nothing))
    case CloseTake => Some(Move(CloseNull(client), Nothing))
    case CloseNull(had) => Some(Move(CloseSet(had), TakeClient))
    case CloseSet(had) => Some(Move(ClearLock(Tell(had)), Connect(false)))
    case CloseTell(had) => if had then Some(Move(Returned, Nothing)) else None
    case ClearLock(after) => Some(Move(ClearLocked(after), Acquire))
    case ClearLocked(after) =>
      Some(if front.Some? then Move(ClearLocked(after), Clear) else Move(ClearUnlock(after), Nothing))
    case ClearUnlock(after) => Some(Move(if after.Done? then Returned else CloseTell(after.had), Release))
    case Returned => None
  }

  function Front(queue: seq<Packet>): Option<Packet> {
    if queue == [] then None else Some(queue[0])
  }

  /** The mutex must be free; and m_client->send is undefined once the pointer is null, so the thread goes
      no further. */
  predicate Enabled(s: State, t: nat, e: Effect) {
    match e
    case Acquire => s.lock.None?
    case Send(_) => s.client
    case Pop => s.queue != []
    case Clear => s.queue != []
    case _ => true
  }

  function Apply(s: State, t: nat, e: Effect): State
    requires Enabled(s, t, e)
  {
    match e
    case Nothing => s
    case Acquire => s.(lock := Some(t))
    case Release => s.(lock := None)
    case Pop => s.(queue := s.queue[1..], popped := s.popped + [s.queue[0]])
    case Clear => s.(queue := s.queue[1..], popped := s.popped + [s.queue[0]], cleared := s.cleared + [s.queue[0]])
    case Push(p) => s.(queue := s.queue + [p], pushed := s.pushed + [p])
    case Send(p) => s.(sent := s.sent + [p])
    case Accept(p) => s.(accepted := s.accepted + [p])
    case Connect(b) => s.(connected := b)
    case TakeClient => s.(client := false)
  }

  function Chosen(s: State, t: nat): Option<Move>
    requires t < |s.threads|
  {
    Decide(s.threads[t], s.client, s.connected, Front(s.queue))
  }

  /** One step of thread t; None when it cannot move. */
  function Next(s: State, t: nat): (r: Option<State>)
    requires t < |s.threads|
  {
    match Chosen(s, t)
    case None => None
    case Some(move) =>
      if !Enabled(s, t, move.effect) then None
      else Some(Apply(s, t, move.effect).(threads := s.threads[t := move.pc]))
  }

  function Act(s: State, a: Action): Option<State> {
    match a
    case Call(pc) => if Entry(pc) then Some(s.(threads := s.threads + [pc])) else None
    case Step(t) => if t < |s.threads| then Next(s, t) else None
  }

  /** A whole interleaving; None if some action in it could not be taken. */
  function Run(s: State, run: seq<Action>): Option<State>
    decreases |run|
  {
    if run == [] then Some(s)
    else match Act(s, run[0])
      case None => None
      case Some(s') => Run(s', run[1..])
  }

  // ---------------------------------------------------------------- what a thread has in hand

  /** The packet a caller of send_packet has neither sent nor queued yet. */
  function Held(pc: Pc): Option<Packet> {
    match pc
    case SendBranch(p) => Some(p)
    case SendLock(p) => Some(p)
    case SendLocked(p) => Some(p)
    case SendUnlock(p, _) => Some(p)
    case SendBreak(p) => Some(p)
    case SendFront(p, _) => Some(p)
    case SendOwn(p) => Some(p)
    case PushLock(p) => Some(p)
    case PushLocked(p) => Some(p)
    case _ => None
  }

  /** The packet a thread has popped and not yet sent. */
  function InFlight(pc: Pc): Option<Packet> {
    match pc
    case SendUnlock(_, front) => Some(front)
    case SendFront(_, front) => Some(front)
    case OpenUnlock(front) => Some(front)
    case OpenFront(front) => Some(front)
    case _ => None
  }

  function One(o: Option<Packet>, p: Packet): nat {
    if o == Some(p) then 1 else 0
  }

  /** How many threads hold a copy of p, and how many have one in flight. */
  function HeldCount(threads: seq<Pc>, p: Packet): nat {
    if threads == [] then 0 else One(Held(threads[0]), p) + HeldCount(threads[1..], p)
  }

  function InFlightCount(threads: seq<Pc>, p: Packet): nat {
    if threads == [] then 0 else One(InFlight(threads[0]), p) + InFlightCount(threads[1..], p)
  }

  function Count(ps: seq<Packet>, p: Packet): nat {
    multiset(ps)[p]
  }

  lemma {:induction false} ThreadMoves(threads: seq<Pc>, t: nat, pc: Pc, p: Packet)
    requires t < |threads|
    ensures HeldCount(threads[t := pc], p) + One(Held(threads[t]), p) == HeldCount(threads, p) + One(Held(pc), p)
    ensures InFlightCount(threads[t := pc], p) + One(InFlight(threads[t]), p)
         == InFlightCount(threads, p) + One(InFlight(pc), p)
  {
    hide Held, InFlight;
    if t == 0 {
      assert threads[t := pc][1..] == threads[1..];
    } else {
      assert threads[t := pc][1..] == threads[1..][t - 1 := pc];
      ThreadMoves(threads[1..], t - 1, pc, p);
    }
  }

  lemma {:induction false} ThreadStarts(threads: seq<Pc>, pc: Pc, p: Packet)
    requires Entry(pc)
    ensures HeldCount(threads + [pc], p) == HeldCount(threads, p)
    ensures InFlightCount(threads + [pc], p) == InFlightCount(threads, p)
  {
    if threads == [] {
      assert [] + [pc] == [pc];
      assert [pc][1..] == [];
    } else {
      assert (threads + [pc])[1..] == threads[1..] + [pc];
      ThreadStarts(threads[1..], pc, p);
    }
  }

  // ---------------------------------------------------------------- conservation

  /** Every copy of p accepted is sent, in flight, queued, cleared or still with its caller: in exactly
      one of them. */
  predicate Conserved(s: State, p: Packet) {
    Count(s.sent, p) + InFlightCount(s.threads, p) + Count(s.queue, p) + Count(s.cleared, p) + HeldCount(s.threads, p)
      == Count(s.accepted, p)
  }

  lemma CountMore(ps: seq<Packet>, x: Packet, p: Packet)
    ensures Count(ps + [x], p) == Count(ps, p) + One(Some(x), p)
  {
  }

  lemma CountFirst(ps: seq<Packet>, p: Packet)
    requires ps != []
    ensures Count(ps, p) == One(Some(ps[0]), p) + Count(ps[1..], p)
  {
    assert ps == [ps[0]] + ps[1..];
  }

  /** What an effect adds to the accepted, minus what it adds to the sent, the queued and the cleared. */
  function Taken(e: Effect, front: Option<Packet>, p: Packet): int {
    match e
    case Accept(x) => One(Some(x), p)
    case Pop => One(front, p)
    case Send(x) => 0 - One(Some(x), p)
    case Push(x) => 0 - One(Some(x), p)
    case _ => 0
  }

  /** The copies sent, queued or cleared, less those accepted. */
  function Placed(s: State, p: Packet): int {
    Count(s.sent, p) + Count(s.queue, p) + Count(s.cleared, p) - Count(s.accepted, p)
  }

  lemma EffectBalances(s: State, t: nat, e: Effect, p: Packet)
    requires Enabled(s, t, e)
    ensures Placed(s, p) == Placed(Apply(s, t, e), p) + Taken(e, Front(s.queue), p)
  {
    hide Count;
    if s.queue != [] {
      CountFirst(s.queue, p);
      CountMore(s.cleared, s.queue[0], p);
    }
    match e
    case Push(x) => CountMore(s.queue, x, p);
    case Send(x) => CountMore(s.sent, x, p);
    case Accept(x) => CountMore(s.accepted, x, p);
    case _ =>
  }

  function InHand(pc: Pc, p: Packet): nat {
    One(Held(pc), p) + One(InFlight(pc), p)
  }

  /** A thread holds more by what it takes. */
  lemma MoveBalances(pc: Pc, client: bool, connected: bool, front: Option<Packet>, p: Packet)
    requires Decide(pc, client, connected, front).Some?
    ensures InHand(Decide(pc, client, connected, front).value.pc, p)
         == InHand(pc, p) + Taken(Decide(pc, client, connected, front).value.effect, front, p)
  {
  }

  lemma NextConserves(s: State, t: nat, p: Packet)
    requires t < |s.threads| && Conserved(s, p) && Next(s, t).Some?
    ensures Conserved(Next(s, t).value, p)
  {
    hide Decide, Held, InFlight, Count, One, Taken;
    var move := Chosen(s, t).value;
    MoveBalances(s.threads[t], s.client, s.connected, Front(s.queue), p);
    EffectBalances(s, t, move.effect, p);
    ThreadMoves(s.threads, t, move.pc, p);
  }

  lemma CallConserves(s: State, pc: Pc, p: Packet)
    requires Conserved(s, p) && Entry(pc)
    ensures Conserved(s.(threads := s.threads + [pc]), p)
  {
    ThreadStarts(s.threads, pc, p);
  }

  lemma {:induction false} RunConserves(s: State, run: seq<Action>, p: Packet)
    requires Conserved(s, p) && Run(s, run).Some?
    ensures Conserved(Run(s, run).value, p)
    decreases |run|
  {
    hide Next, Conserved;
    if run != [] {
      match run[0] {
        case Call(pc) => CallConserves(s, pc, p);
        case Step(t) => NextConserves(s, t, p);
      }
      RunConserves(Act(s, run[0]).value, run[1..], p);
    }
  }

  /** In every interleaving, for every packet: nothing is lost or duplicated on the way. */
  lemma NothingLost(run: seq<Action>, p: Packet)
    requires Run(Initial(), run).Some?
    ensures Conserved(Run(Initial(), run).value, p)
  {
    RunConserves(Initial(), run, p);
  }

  /** So a packet accepted once is handed to the client at most once, and never both handed and cleared. */
  lemma NoneSentTwice(run: seq<Action>, p: Packet)
    requires Run(Initial(), run).Some?
    requires Count(Run(Initial(), run).value.accepted, p) == 1
    ensures var s := Run(Initial(), run).value;
            && Count(s.sent, p) <= 1
            && (p in s.sent ==> p !in s.cleared && p !in s.queue)
  {
    hide Run;
    NothingLost(run, p);
  }

  // ---------------------------------------------------------------- the lock, and the queue's order

  predicate Locked(pc: Pc) {
    || pc.SendLocked? || pc.SendUnlock? || pc.SendBreak? || pc.PushLocked? || pc.PushUnlock?
    || pc.OpenLocked? || pc.OpenUnlock? || pc.OpenBreak? || pc.ClearLocked? || pc.ClearUnlock?
  }

  /** The thread between lock and unlock is the one that owns the mutex; the queue is a queue. */
  predicate Orderly(s: State) {
    && (s.lock.Some? ==> s.lock.value < |s.threads|)
    && (forall t | 0 <= t < |s.threads| :: Locked(s.threads[t]) <==> s.lock == Some(t))
    && s.pushed == s.popped + s.queue
  }

  /** A thread enters the lock by acquiring it, and leaves it by releasing it. */
  lemma MoveLocks(pc: Pc, client: bool, connected: bool, front: Option<Packet>)
    requires Decide(pc, client, connected, front).Some?
    ensures var move := Decide(pc, client, connected, front).value;
            && (move.effect.Acquire? <==> !Locked(pc) && Locked(move.pc))
            && (move.effect.Release? <==> Locked(pc) && !Locked(move.pc))
  {
  }

  lemma QueueOrdered(s: State, t: nat, e: Effect)
    requires Enabled(s, t, e) && s.pushed == s.popped + s.queue
    ensures Apply(s, t, e).pushed == Apply(s, t, e).popped + Apply(s, t, e).queue
  {
    if s.queue != [] {
      assert s.popped + s.queue == s.popped + [s.queue[0]] + s.queue[1..];
    }
    if e.Push? {
      assert s.popped + s.queue + [e.p] == s.popped + (s.queue + [e.p]);
    }
  }

  lemma NextOrderly(s: State, t: nat)
    requires t < |s.threads| && Orderly(s) && Next(s, t).Some?
    ensures Orderly(Next(s, t).value)
  {
    hide Decide, Locked;
    var move := Chosen(s, t).value;
    MoveLocks(s.threads[t], s.client, s.connected, Front(s.queue));
    QueueOrdered(s, t, move.effect);
    var s' := Next(s, t).value;
    forall u | 0 <= u < |s'.threads|
      ensures Locked(s'.threads[u]) <==> s'.lock == Some(u)
    {
      assert u != t ==> s'.threads[u] == s.threads[u];
    }
  }

  /** In every interleaving at most one thread is inside the lock, and packets leave the queue in the
      order they entered it. */
  lemma {:induction false} RunOrderly(s: State, run: seq<Action>)
    requires Orderly(s) && Run(s, run).Some?
    ensures Orderly(Run(s, run).value)
    decreases |run|
  {
    hide Next;
    if run != [] {
      if run[0].Step? {
        NextOrderly(s, run[0].t);
      }
      RunOrderly(Act(s, run[0]).value, run[1..]);
    }
  }

  /** From the start: at most one thread inside the lock, and packets taken in the order they were queued. */
  lemma LockServes(run: seq<Action>)
    requires Run(Initial(), run).Some?
    ensures var s := Run(Initial(), run).value;
            && s.pushed == s.popped + s.queue
            && forall t, u | 0 <= t < u < |s.threads| :: !(Locked(s.threads[t]) && Locked(s.threads[u]))
  {
    hide Run, Locked;
    RunOrderly(Initial(), run);
  }
}
