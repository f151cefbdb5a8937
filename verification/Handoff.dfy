/** The handoff of ebot.c as interleaved steps: any number of reactors push packets into the rings of
    the worker units and signal their eventfds; each worker pops or else waits on its eventfd; one
    thread may shut the server down, which joins the reactors and then the workers. Rings are the
    bounded queues that RingQueue.dfy proves ringq to be; a ringq operation under its lock, an eventfd
    access, an access to `status` and a join are one step each. */
module Handoff {
  import opened RingQueue

  /** pack_data: the descriptor, the number of bytes read and the buffer. */
  datatype Packet = Packet(fd: nat, data: seq<Byte>)

  /** sizeof(pack_data) is the same for every packet. */
  const PACK_SIZE: nat := 4 + 4 + 128

  /** Where a worker stands in wpool_exec and eb_srv_factory_exec. */
  datatype Worker = Check | TryPop | Handling(p: Packet) | Waiting | Exited

  /** wunit; `handled` lists the packets given to the callbacks. */
  datatype Unit = Unit(ring: seq<Packet>, efd: nat, status: nat, worker: Worker, handled: seq<Packet>)

  /** A reactor between pushing and signalling owes unit `u` a signal; one that has left its loop is gone. */
  datatype Reactor = Idle | Signalling(u: nat) | Gone

  /** Where eb_srv_destroy stands: reactor_pool_stop has cleared the status of reactors up to `r` and
      joins that one; wpool_stop then deals with the units in turn. */
  datatype Stopper =
    | NotStopping
    | Joining(r: nat)
    | AtLoop(i: nat)
    | AtDecrement(i: nat)
    | AtWrite(i: nat)
    | AtJoin(i: nat)
    | Stopped

  /** `log` lists the packets accepted by the rings, in the order of the pushes. */
  datatype State = State(units: seq<Unit>, reactors: seq<Reactor>, stopper: Stopper, log: seq<Packet>, rqSize: nat)

  datatype Step = Read(r: nat, p: Packet) | Signal(r: nat) | Leave(r: nat) | Work(i: nat) | Stop

  /** The state after wpool_start: `n` units with rings of `rqSize` bytes, `k` reactors. */
  function Initial(n: nat, k: nat, rqSize: nat): State {
    State(seq(n, _ => Unit([], 0, 1, Check, [])), seq(k, _ => Idle), NotStopping, [], rqSize)
  }

  /** A ring takes one more packet exactly when ringq_push would. */
  predicate Fits(ring: seq<Packet>, rqSize: nat) {
    (|ring| + 1) * (LSZ + PACK_SIZE) <= rqSize
  }

  lemma {:induction false} UsedUniform(frames: seq<seq<Byte>>, e: nat)
    requires forall f | f in frames :: Extent(f) == e
    ensures Used(frames) == |frames| * e
  {
    if frames != [] {
      UsedUniform(frames[1..], e);
    }
  }

  /** Fits is the admission rule of RingQ.Push for frames of one size. */
  lemma FitsIsPush(frames: seq<seq<Byte>>, item: seq<Byte>, ring: seq<Packet>, rqSize: nat)
    requires |ring| == |frames| && |item| == PACK_SIZE && forall f | f in frames :: |f| == PACK_SIZE
    ensures Fits(ring, rqSize) <==> Used(frames) + Extent(item) <= rqSize
  {
    UsedUniform(frames, LSZ + PACK_SIZE);
  }

  // ----- the steps

  predicate Enabled(s: State, a: Step) {
    match a
    case Read(r, p) => r < |s.reactors| && s.reactors[r] == Idle && |s.units| > 0
    case Signal(r) => r < |s.reactors| && s.reactors[r].Signalling? && s.reactors[r].u < |s.units|
    case Leave(r) => r < |s.reactors| && s.reactors[r] == Idle && s.stopper.Joining? && r <= s.stopper.r
    case Work(i) =>
      i < |s.units| && s.units[i].worker != Exited && (s.units[i].worker == Waiting ==> s.units[i].efd > 0)
    case Stop =>
      match s.stopper
      case NotStopping => true
      case Stopped => false
      case Joining(r) => r < |s.reactors| && s.reactors[r] == Gone
      case AtJoin(i) => i < |s.units| && s.units[i].worker == Exited
      case AtDecrement(i) => i < |s.units| && s.units[i].status > 0
      case _ => s.stopper.i < |s.units|
  }

  function Do(s: State, a: Step): State
    requires Enabled(s, a)
  {
    match a
    case Read(r, p) => DoRead(s, r, p)
    case Signal(r) =>
      var u := s.reactors[r].u;
      s.(units := s.units[u := s.units[u].(efd := s.units[u].efd + 1)], reactors := s.reactors[r := Idle])
    case Leave(r) => s.(reactors := s.reactors[r := Gone])
    case Work(i) => s.(units := s.units[i := DoWork(s.units[i])])
    case Stop => DoStop(s)
  }

  /** reactor_pool_client_read_callback up to the push; a full ring drops the packet. */
  function DoRead(s: State, r: nat, p: Packet): State
    requires r < |s.reactors| && |s.units| > 0
  {
    var i := p.fd % |s.units|;
    var u := s.units[i];
    if Fits(u.ring, s.rqSize)
    then s.(units := s.units[i := u.(ring := u.ring + [p])], reactors := s.reactors[r := Signalling(i)],
        log := s.log + [p])
    else s
  }

  /** One step of a worker: test the status; pop; run the callback; or read the eventfd, which blocks
      at zero and resets the counter. */
  function DoWork(u: Unit): Unit
    requires u.worker != Exited
  {
    match u.worker
    case Check => u.(worker := if u.status == 0 then Exited else TryPop)
    case TryPop => if u.ring == [] then u.(worker := Waiting)
        else u.(worker := Handling(u.ring[0]), ring := u.ring[1..])
    case Handling(p) => u.(worker := Check, handled := u.handled + [p])
    case Waiting => u.(worker := Check, efd := 0)
  }

  /** One step of eb_srv_destroy, that is of reactor_pool_stop and then of wpool_stop. */
  function DoStop(s: State): State
    requires Enabled(s, Stop)
  {
    match s.stopper
    case NotStopping => s.(stopper := FromReactor(s, 0))
    case Joining(r) => s.(stopper := FromReactor(s, r + 1))
    case AtLoop(i) => s.(stopper := if s.units[i].status > 0 then AtDecrement(i) else AtJoin(i))
    case AtDecrement(i) =>
      s.(stopper := AtWrite(i), units := s.units[i := s.units[i].(status := s.units[i].status - 1)])
    case AtWrite(i) => s.(stopper := AtLoop(i), units := s.units[i := s.units[i].(efd := s.units[i].efd + 0x0F)])
    case AtJoin(i) => s.(stopper := if i + 1 < |s.units| then AtLoop(i + 1) else Stopped)
  }

  /** The next reactor to clear and join, or else the call of wpool_stop. */
  function FromReactor(s: State, r: nat): Stopper {
    if r < |s.reactors| then Joining(r) else if |s.units| > 0 then AtLoop(0) else Stopped
  }

  /** A run: each step is enabled when its turn comes. */
  predicate Run(s: State, steps: seq<Step>)
    decreases |steps|
  {
    steps == [] || (Enabled(s, steps[0]) && Run(Do(s, steps[0]), steps[1..]))
  }

  function After(s: State, steps: seq<Step>): (t: State)
    requires Run(s, steps)
    ensures |t.units| == |s.units| && t.rqSize == s.rqSize
    decreases |steps|
  {
    if steps == [] then s else After(Do(s, steps[0]), steps[1..])
  }

  // ----- the steps by what they change and what they leave alone

  /** A packet goes behind the ring of unit fd % num and into the log, and its reactor owes that unit a
      signal; when the ring has no room for its 140 bytes, nothing happens at all. */
  lemma ReadStep(s: State, r: nat, p: Packet)
    ensures Enabled(s, Read(r, p)) <==> r < |s.reactors| && s.reactors[r] == Idle && s.units != []
    ensures Enabled(s, Read(r, p)) ==>
      var t, i := Do(s, Read(r, p)), p.fd % |s.units|;
      if (|s.units[i].ring| + 1) * 140 <= s.rqSize then
        && |t.units| == |s.units| && t.units[i] == s.units[i].(ring := s.units[i].ring + [p])
        && (forall j | 0 <= j < |s.units| && j != i :: t.units[j] == s.units[j])
        && |t.reactors| == |s.reactors| && t.reactors[r] == Signalling(i)
        && (forall q | 0 <= q < |s.reactors| && q != r :: t.reactors[q] == s.reactors[q])
        && t.log == s.log + [p] && t.stopper == s.stopper && t.rqSize == s.rqSize
      else t == s
  {
  }

  /** The counter of the unit the reactor owes a signal goes up by one. */
  lemma SignalStep(s: State, r: nat, i: nat)
    requires r < |s.reactors| && s.reactors[r] == Signalling(i) && i < |s.units|
    ensures Enabled(s, Signal(r))
    ensures var t := Do(s, Signal(r));
      && |t.units| == |s.units| && t.units[i] == s.units[i].(efd := s.units[i].efd + 1)
      && (forall j | 0 <= j < |s.units| && j != i :: t.units[j] == s.units[j])
      && |t.reactors| == |s.reactors| && t.reactors[r] == Idle
      && (forall q | 0 <= q < |s.reactors| && q != r :: t.reactors[q] == s.reactors[q])
      && t.log == s.log && t.stopper == s.stopper && t.rqSize == s.rqSize
  {
  }

  /** A reactor leaves its loop only between two callbacks, after the shutdown has cleared its status. */
  lemma LeaveStep(s: State, r: nat)
    ensures Enabled(s, Leave(r)) <==>
      r < |s.reactors| && s.reactors[r] == Idle && s.stopper.Joining? && r <= s.stopper.r
    ensures Enabled(s, Leave(r)) ==> Do(s, Leave(r)) == s.(reactors := s.reactors[r := Gone])
  {
  }

  /** A worker touches its own unit only: the oldest packet moves from the ring to its hands and from
      there to the handled ones; it waits only when the ring was empty, and only its eventfd blocks it. */
  lemma WorkStep(s: State, i: nat)
    requires i < |s.units|
    ensures var u := s.units[i];
      && (Enabled(s, Work(i)) <==> u.worker != Exited && !(u.worker == Waiting && u.efd == 0))
      && (Enabled(s, Work(i)) ==>
            var t := Do(s, Work(i));
            && |t.units| == |s.units| && (forall j | 0 <= j < |s.units| && j != i :: t.units[j] == s.units[j])
            && t.reactors == s.reactors && t.log == s.log && t.stopper == s.stopper && t.rqSize == s.rqSize
            && t.units[i].status == u.status && t.units[i].efd == (if u.worker == Waiting then 0 else u.efd)
            && (u.worker == Check && u.status == 0 ==> t.units[i].worker == Exited)
            && (u.worker == Check && u.status > 0 ==> t.units[i].worker == TryPop)
            && (u.worker == TryPop && u.ring == [] ==> t.units[i].worker == Waiting)
            && (u.worker == TryPop && u.ring != [] ==>
                  t.units[i].worker.Handling? && [t.units[i].worker.p] + t.units[i].ring == u.ring)
            && (u.worker != TryPop || u.ring == [] ==> t.units[i].ring == u.ring)
            && (u.worker.Handling? || u.worker == Waiting ==> t.units[i].worker == Check)
            && t.units[i].handled == (if u.worker.Handling? then u.handled + [u.worker.p] else u.handled))
  {
  }

  /** The shutdown clears a status, writes 15 to an eventfd, and touches nothing else of the units; it
      waits for nothing but the reactor or the worker it joins. */
  lemma StopChanges(s: State)
    requires Inv(s) && s.stopper != Stopped
    ensures var c := s.stopper;
      && (Enabled(s, Stop) <==>
            (c.Joining? ==> s.reactors[c.r] == Gone) && (c.AtJoin? ==> s.units[c.i].worker == Exited))
      && (Enabled(s, Stop) ==>
            var t := Do(s, Stop);
            && |t.units| == |s.units| && t.reactors == s.reactors && t.log == s.log && t.rqSize == s.rqSize
            && (c.AtDecrement? ==> t.units[c.i] == s.units[c.i].(status := 0))
            && (c.AtWrite? ==> t.units[c.i] == s.units[c.i].(efd := s.units[c.i].efd + 15))
            && (forall j | 0 <= j < |s.units| ::
                  (c.AtDecrement? || c.AtWrite? ==> j != c.i) ==> t.units[j] == s.units[j]))
  {
    assert s.stopper.AtDecrement? ==> Stops(s, s.stopper.i);
  }

  // ----- what every step keeps

  /** The packets of a log that go to unit `i` of `n`, and those of descriptor `fd`. */
  ghost function ForUnit(log: seq<Packet>, n: nat, i: nat): seq<Packet>
    requires n > 0
  {
    if log == [] then [] else
    var t, p := log[..|log| - 1], log[|log| - 1];
    ForUnit(t, n, i) + if p.fd % n == i then [p] else []
  }

  ghost function ForFd(log: seq<Packet>, fd: nat): seq<Packet> {
    if log == [] then [] else
    var t, p := log[..|log| - 1], log[|log| - 1];
    ForFd(t, fd) + if p.fd == fd then [p] else []
  }

  /** Both keep the order of the log and just the packets meant. */
  lemma PartsOfLog(log: seq<Packet>, p: Packet, n: nat, i: nat, fd: nat)
    requires n > 0
    ensures ForUnit([], n, i) == []
    ensures ForUnit(log + [p], n, i) == ForUnit(log, n, i) + if p.fd % n == i then [p] else []
    ensures ForFd([], fd) == [] && ForFd(log + [p], fd) == ForFd(log, fd) + if p.fd == fd then [p] else []
  {
    assert (log + [p])[..|log|] == log;
  }

  ghost function InFlight(w: Worker): seq<Packet> { if w.Handling? then [w.p] else [] }

  /** Accepted is handled, in flight or queued, in this order. */
  ghost predicate Conserved(s: State, i: nat)
    requires i < |s.units|
  {
    var u := s.units[i];
    ForUnit(s.log, |s.units|, i) == u.handled + InFlight(u.worker) + u.ring
  }

  ghost predicate Owed(s: State, i: nat) { exists r | 0 <= r < |s.reactors| :: s.reactors[r] == Signalling(i) }

  /** No lost wakeup: a worker about to wait on a non-empty ring will be woken. */
  ghost predicate Wakes(s: State, i: nat)
    requires i < |s.units|
  {
    var u := s.units[i];
    u.worker == Waiting && u.ring != [] ==> u.efd > 0 || Owed(s, i)
  }

  /** Shutdown: once the status is cleared a worker past its test of it will find the counter positive. */
  ghost predicate Stops(s: State, i: nat)
    requires i < |s.units|
  {
    var u := s.units[i];
    && u.status <= 1 && (u.status == 1 ==> u.worker != Exited)
    && (u.status == 0 && u.worker in {TryPop, Waiting} ==> u.efd > 0 || s.stopper == AtWrite(i))
  }

  /** How far the shutdown has come. */
  ghost predicate StopperOk(s: State) {
    (s.stopper.NotStopping? || s.stopper.Joining? || NoReactors(s)) &&
    match s.stopper
    case NotStopping => Running(s)
    case Joining(r) => Running(s) && r < |s.reactors| && forall q | 0 <= q < r :: s.reactors[q] == Gone
    case Stopped => forall j | 0 <= j < |s.units| :: s.units[j].worker == Exited
    case AtLoop(i) => Joined(s, i)
    case AtDecrement(i) => Joined(s, i) && s.units[i].status == 1
    case AtWrite(i) => Joined(s, i) && s.units[i].status == 0
    case AtJoin(i) => Joined(s, i) && s.units[i].status == 0
  }

  ghost predicate NoReactors(s: State) { forall r | 0 <= r < |s.reactors| :: s.reactors[r] == Gone }

  ghost predicate Running(s: State) { forall j | 0 <= j < |s.units| :: s.units[j].status == 1 }

  /** The units before `i` have been joined, those behind it still run. */
  ghost predicate Joined(s: State, i: nat) {
    && i < |s.units|
    && (forall j | 0 <= j < i :: s.units[j].worker == Exited)
    && (forall j | i < j < |s.units| :: s.units[j].status == 1)
  }

  ghost predicate Inv(s: State) {
    && |s.units| > 0 && StopperOk(s)
    && (forall r | 0 <= r < |s.reactors| :: s.reactors[r].Signalling? ==> s.reactors[r].u < |s.units|)
    && (forall i | 0 <= i < |s.units| :: Conserved(s, i) && Wakes(s, i) && Stops(s, i))
  }

  lemma InvInitial(n: nat, k: nat, rqSize: nat)
    requires n > 0
    ensures Inv(Initial(n, k, rqSize))
  {
  }

  lemma InvRead(s: State, r: nat, p: Packet)
    requires Inv(s) && Enabled(s, Read(r, p))
    ensures Inv(Do(s, Read(r, p)))
  {
    var i, s' := p.fd % |s.units|, Do(s, Read(r, p));
    if Fits(s.units[i].ring, s.rqSize) {
      assert s'.log[..|s.log|] == s.log;
      assert s'.reactors[r] == Signalling(i);
      forall j | 0 <= j < |s.units| ensures Conserved(s', j) && Wakes(s', j) && Stops(s', j) {
        assert Conserved(s, j) && Wakes(s, j) && Stops(s, j);
        StillOwed(s, s', r, j);
      }
    }
  }

  /** A reactor's move takes away no other reactor's signal. */
  lemma StillOwed(s: State, s': State, r: nat, j: nat)
    requires r < |s.reactors| == |s'.reactors|
    requires forall q | 0 <= q < |s.reactors| && q != r :: s'.reactors[q] == s.reactors[q]
    requires s.reactors[r] != Signalling(j)
    ensures Owed(s, j) ==> Owed(s', j)
  {
    if Owed(s, j) {
      var q :| 0 <= q < |s.reactors| && s.reactors[q] == Signalling(j);
      assert s'.reactors[q] == Signalling(j);
    }
  }

  lemma InvSignal(s: State, r: nat)
    requires Inv(s) && Enabled(s, Signal(r))
    ensures Inv(Do(s, Signal(r)))
  {
    var u, s' := s.reactors[r].u, Do(s, Signal(r));
    forall j | 0 <= j < |s.units| ensures Conserved(s', j) && Wakes(s', j) && Stops(s', j) {
      assert Conserved(s, j) && Wakes(s, j) && Stops(s, j);
      if j != u { StillOwed(s, s', r, j); }
    }
  }

  lemma InvLeave(s: State, r: nat)
    requires Inv(s) && Enabled(s, Leave(r))
    ensures Inv(Do(s, Leave(r)))
  {
    var s' := Do(s, Leave(r));
    forall j | 0 <= j < |s.units| ensures Conserved(s', j) && Wakes(s', j) && Stops(s', j) {
      assert Conserved(s, j) && Wakes(s, j) && Stops(s, j);
      StillOwed(s, s', r, j);
    }
  }

  lemma InvWork(s: State, i: nat)
    requires Inv(s) && Enabled(s, Work(i))
    ensures Inv(Do(s, Work(i)))
  {
    hide Owed, ForUnit;
    var s' := Do(s, Work(i));
    WorkConserves(s.units[i]);
    forall j | 0 <= j < |s.units| ensures Conserved(s', j) && Wakes(s', j) && Stops(s', j) {
      assert Conserved(s, j) && Wakes(s, j) && Stops(s, j);
      SameOwed(s, s', j);
    }
  }

  lemma SameOwed(s: State, s': State, j: nat)
    requires s'.reactors == s.reactors
    ensures Owed(s', j) == Owed(s, j)
  {
  }

  /** A worker's step moves packets from the ring to its hands and on, in order. */
  lemma WorkConserves(u: Unit)
    requires u.worker != Exited
    ensures var v := DoWork(u);
      v.handled + InFlight(v.worker) + v.ring == u.handled + InFlight(u.worker) + u.ring
  {
    if u.worker == TryPop && u.ring != [] { assert u.ring == [u.ring[0]] + u.ring[1..]; }
  }

  lemma InvStop(s: State)
    requires Inv(s) && Enabled(s, Stop)
    ensures Inv(Do(s, Stop))
  {
    hide Owed, ForUnit;
    var s' := Do(s, Stop);
    if s.stopper.AtLoop? { assert Stops(s, s.stopper.i); }
    forall j | 0 <= j < |s.units| ensures Conserved(s', j) && Wakes(s', j) && Stops(s', j) {
      assert Conserved(s, j) && Wakes(s, j) && Stops(s, j);
      SameOwed(s, s', j);
    }
  }

  lemma InvStep(s: State, a: Step)
    requires Inv(s) && Enabled(s, a)
    ensures Inv(Do(s, a))
  {
    hide Inv, Do;
    match a
    case Read(r, p) => InvRead(s, r, p);
    case Signal(r) => InvSignal(s, r);
    case Leave(r) => InvLeave(s, r);
    case Work(i) => InvWork(s, i);
    case Stop => InvStop(s);
  }

  lemma {:induction false} InvRun(s: State, steps: seq<Step>)
    requires Inv(s) && Run(s, steps)
    ensures Inv(After(s, steps))
    decreases |steps|
  {
    hide Inv, Do;
    if steps != [] {
      InvStep(s, steps[0]);
      InvRun(Do(s, steps[0]), steps[1..]);
    }
  }

  // ----- what holds in every run

  /** The state a pool of `n` units and `k` reactors reaches by `steps`. */
  ghost function Reached(n: nat, k: nat, rqSize: nat, steps: seq<Step>): State
    requires Run(Initial(n, k, rqSize), steps)
  {
    After(Initial(n, k, rqSize), steps)
  }

  lemma InvReached(n: nat, k: nat, rqSize: nat, steps: seq<Step>)
    requires n > 0 && Run(Initial(n, k, rqSize), steps)
    ensures Inv(Reached(n, k, rqSize, steps)) && |Reached(n, k, rqSize, steps).units| == n
  {
    InvInitial(n, k, rqSize);
    InvRun(Initial(n, k, rqSize), steps);
  }

  /** A worker about to wait while its ring holds packets finds the counter positive, or some reactor
      is between its push and its signal. */
  lemma NoLostWakeup(n: nat, k: nat, rqSize: nat, steps: seq<Step>, i: nat)
    requires i < n && Run(Initial(n, k, rqSize), steps)
    ensures var s := Reached(n, k, rqSize, steps);
      && i < |s.units|
      && (s.units[i].worker == Waiting && s.units[i].ring != [] ==> s.units[i].efd > 0 || Owed(s, i))
  {
    InvReached(n, k, rqSize, steps);
    assert Wakes(Reached(n, k, rqSize, steps), i);
  }

  /** Nothing is stranded: when a worker is blocked and no reactor owes it a signal, every packet
      accepted for its unit has been handled. */
  lemma BlockedMeansDone(n: nat, k: nat, rqSize: nat, steps: seq<Step>, i: nat)
    requires i < n && Run(Initial(n, k, rqSize), steps)
    ensures var s := Reached(n, k, rqSize, steps);
      && i < |s.units|
      && (s.units[i].worker == Waiting && !Enabled(s, Work(i)) && !Owed(s, i) ==>
            s.units[i].handled == ForUnit(s.log, n, i))
  {
    InvReached(n, k, rqSize, steps);
    assert Wakes(Reached(n, k, rqSize, steps), i) && Conserved(Reached(n, k, rqSize, steps), i);
  }

  /** Handled, in flight and queued packets are at all times the accepted ones, in order. */
  lemma Conservation(n: nat, k: nat, rqSize: nat, steps: seq<Step>, i: nat)
    requires i < n && Run(Initial(n, k, rqSize), steps)
    ensures var s := Reached(n, k, rqSize, steps);
      i < |s.units| && ForUnit(s.log, n, i) == s.units[i].handled + InFlight(s.units[i].worker) + s.units[i].ring
  {
    InvReached(n, k, rqSize, steps);
    assert Conserved(Reached(n, k, rqSize, steps), i);
  }

  lemma {:induction false} ForFdAppend(a: seq<Packet>, b: seq<Packet>, fd: nat)
    ensures ForFd(a + b, fd) == ForFd(a, fd) + ForFd(b, fd)
  {
    if b == [] {
      assert a + b == a;
    } else {
      assert (a + b)[..|a + b| - 1] == a + b[..|b| - 1];
      ForFdAppend(a, b[..|b| - 1], fd);
    }
  }

  /** A descriptor's packets all go to the unit its number selects. */
  lemma {:induction false} ForFdForUnit(log: seq<Packet>, n: nat, i: nat, fd: nat)
    requires n > 0 && i < n
    ensures ForFd(ForUnit(log, n, i), fd) == if fd % n == i then ForFd(log, fd) else []
  {
    if log != [] {
      var t, p := log[..|log| - 1], log[|log| - 1];
      ForFdForUnit(t, n, i, fd);
      if p.fd % n == i {
        ForFdAppend(ForUnit(t, n, i), [p], fd);
        assert [p][..0] == [];
        assert ForFd([p], fd) == if p.fd == fd then [p] else [];
      } else {
        assert ForUnit(t, n, i) + [] == ForUnit(t, n, i);
      }
    }
  }

  /** Per connection: what has been handled is a prefix of what was accepted, and no other unit
      handles any of it. */
  lemma PerConnectionOrder(n: nat, k: nat, rqSize: nat, steps: seq<Step>, fd: nat, i: nat)
    requires i < n && Run(Initial(n, k, rqSize), steps)
    ensures var s := Reached(n, k, rqSize, steps);
      && i < |s.units|
      && (if fd % n == i then ForFd(s.units[i].handled, fd) <= ForFd(s.log, fd)
          else ForFd(s.units[i].handled, fd) == [])
  {
    hide ForUnit, ForFd, Run, Reached, InFlight;
    var s := Reached(n, k, rqSize, steps);
    Conservation(n, k, rqSize, steps, i);
    var u := s.units[i];
    ForFdForUnit(s.log, n, i, fd);
    assert u.handled + InFlight(u.worker) + u.ring == u.handled + (InFlight(u.worker) + u.ring);
    ForFdAppend(u.handled, InFlight(u.worker) + u.ring, fd);
  }

  // ----- draining

  /** The steps a running worker needs until nothing is queued or in flight. */
  function DrainLeft(u: Unit): nat {
    var k := 3 * |u.ring|;
    match u.worker
    case Check => k
    case TryPop => if k == 0 then 0 else k - 1
    case Handling(_) => k + 1
    case Waiting => if k == 0 then 0 else k + 1
    case Exited => 0
  }

  /** The unit's status never rises, and its share of the log never shrinks. */
  lemma {:induction false} Monotone(s: State, steps: seq<Step>, i: nat)
    requires Run(s, steps) && i < |s.units|
    ensures var t := After(s, steps);
      && |t.units| == |s.units| && t.units[i].status <= s.units[i].status
      && |ForUnit(s.log, |s.units|, i)| <= |ForUnit(t.log, |s.units|, i)|
    decreases |steps|
  {
    if steps != [] {
      LogStep(s, steps[0], i);
      Monotone(Do(s, steps[0]), steps[1..], i);
    }
  }

  lemma LogStep(s: State, a: Step, i: nat)
    requires Enabled(s, a) && i < |s.units|
    ensures |ForUnit(s.log, |s.units|, i)| <= |ForUnit(Do(s, a).log, |s.units|, i)|
    ensures |ForUnit(s.log, |s.units|, i)| == |ForUnit(Do(s, a).log, |s.units|, i)| && a != Work(i)
            ==> Do(s, a).units[i].ring == s.units[i].ring
  {
    var l := Do(s, a).log;
    if l != s.log { assert l[..|l| - 1] == s.log; }
  }

  /** While a unit runs and accepts nothing, every step of its worker brings it one nearer to having
      handled all it accepted, whatever else happens in between. */
  lemma {:induction false} Drains(s: State, steps: seq<Step>, i: nat)
    requires Run(s, steps) && i < |s.units| && After(s, steps).units[i].status > 0
    requires |ForUnit(After(s, steps).log, |s.units|, i)| == |ForUnit(s.log, |s.units|, i)|
    ensures var d, w := DrainLeft(s.units[i]), WorkSteps(steps, i);
      DrainLeft(After(s, steps).units[i]) == if w < d then d - w else 0
    decreases |steps|
  {
    hide Do, Enabled, DrainLeft, ForUnit;
    if steps != [] {
      var t := Do(s, steps[0]);
      SameSize(s, steps[0]);
      LogStep(s, steps[0], i);
      Monotone(s, steps, i);
      Monotone(t, steps[1..], i);
      DrainStep(s, steps[0], i);
      Drains(t, steps[1..], i);
    }
  }

  lemma SameSize(s: State, a: Step)
    requires Enabled(s, a)
    ensures |Do(s, a).units| == |s.units|
  {
  }

  lemma DrainStep(s: State, a: Step, i: nat)
    requires Enabled(s, a) && i < |s.units| && s.units[i].status > 0 && Do(s, a).units[i].status > 0
    requires a != Work(i) ==> Do(s, a).units[i].ring == s.units[i].ring
    ensures var d := DrainLeft(s.units[i]);
      DrainLeft(Do(s, a).units[i]) == if a == Work(i) && d > 0 then d - 1 else d
  {
  }

  /** After at most 3 k + 1 such steps, k packets being queued, everything accepted has been handled. */
  lemma DrainedMeansDone(n: nat, k: nat, rqSize: nat, before: seq<Step>, steps: seq<Step>, i: nat)
    requires i < n && Run(Initial(n, k, rqSize), before) && Run(Reached(n, k, rqSize, before), steps)
    ensures var s := Reached(n, k, rqSize, before);
      var t := After(s, steps);
      && i < |s.units| && i < |t.units| && DrainLeft(s.units[i]) <= 3 * |s.units[i].ring| + 1
      && (t.units[i].status > 0 && |ForUnit(t.log, n, i)| == |ForUnit(s.log, n, i)|
          && WorkSteps(steps, i) >= DrainLeft(s.units[i])
          ==> t.units[i].handled == ForUnit(t.log, n, i))
  {
    var s := Reached(n, k, rqSize, before);
    var t := After(s, steps);
    InvReached(n, k, rqSize, before);
    InvRun(s, steps);
    Monotone(s, steps, i);
    assert Conserved(t, i) && Stops(t, i);
    if t.units[i].status > 0 && |ForUnit(t.log, n, i)| == |ForUnit(s.log, n, i)| {
      Drains(s, steps, i);
    }
  }

  /** Until then the worker can step, once the signals it is owed have been delivered. */
  lemma DrainEnabled(n: nat, k: nat, rqSize: nat, steps: seq<Step>, i: nat)
    requires i < n && Run(Initial(n, k, rqSize), steps)
    ensures var s := Reached(n, k, rqSize, steps);
      && i < |s.units|
      && (s.units[i].status > 0 && DrainLeft(s.units[i]) > 0 && !Owed(s, i) ==> Enabled(s, Work(i)))
  {
    InvReached(n, k, rqSize, steps);
    assert Wakes(Reached(n, k, rqSize, steps), i) && Stops(Reached(n, k, rqSize, steps), i);
  }

  // ----- shutdown

  /** Once wpool_stop has cleared a unit's status and written its eventfd, the worker is never blocked. */
  lemma NeverStranded(n: nat, k: nat, rqSize: nat, steps: seq<Step>, i: nat)
    requires i < n && Run(Initial(n, k, rqSize), steps)
    ensures var s := Reached(n, k, rqSize, steps);
      && i < |s.units|
      && (s.units[i].status == 0 && s.stopper != AtWrite(i) ==> s.units[i].worker == Exited || Enabled(s, Work(i)))
  {
    InvReached(n, k, rqSize, steps);
    assert Stops(Reached(n, k, rqSize, steps), i);
  }

  /** The steps a worker whose status is cleared has left. */
  function Remaining(w: Worker): nat {
    match w
    case TryPop => 3
    case Handling(_) => 2
    case Waiting => 2
    case Check => 1
    case Exited => 0
  }

  function WorkSteps(steps: seq<Step>, i: nat): nat {
    if steps == [] then 0 else (if steps[0] == Work(i) then 1 else 0) + WorkSteps(steps[1..], i)
  }

  /** With its status cleared a worker exits after at most three steps of its own, whatever else happens. */
  lemma {:induction false} ExitsSoon(s: State, steps: seq<Step>, i: nat)
    requires Run(s, steps) && i < |s.units| && s.units[i].status == 0
    ensures var t := After(s, steps);
      && i < |t.units| && t.units[i].status == 0
      && WorkSteps(steps, i) + Remaining(t.units[i].worker) == Remaining(s.units[i].worker) <= 3
    decreases |steps|
  {
    if steps != [] {
      ExitsSoon(Do(s, steps[0]), steps[1..], i);
    }
  }

  /** The shutdown is never stuck: it can go on, or it waits for a reactor or a worker that can. */
  lemma StopProgress(n: nat, k: nat, rqSize: nat, steps: seq<Step>)
    requires n > 0 && Run(Initial(n, k, rqSize), steps)
    ensures var s := Reached(n, k, rqSize, steps);
      && (s.stopper.Joining? ==> Enabled(s, Stop) || Enabled(s, Signal(s.stopper.r)) || Enabled(s, Leave(s.stopper.r)))
      && (s.stopper.AtJoin? ==> Enabled(s, Stop) || Enabled(s, Work(s.stopper.i)))
      && (s.stopper != Stopped && !s.stopper.Joining? && !s.stopper.AtJoin? ==> Enabled(s, Stop))
  {
    InvReached(n, k, rqSize, steps);
    var s := Reached(n, k, rqSize, steps);
    if s.stopper.AtJoin? {
      assert Stops(s, s.stopper.i);
    }
  }

  /** The steps the shutdown has left: one for each reactor and five for each unit. */
  function StopLeft(s: State): nat {
    var n := |s.units|;
    match s.stopper
    case NotStopping => |s.reactors| + 5 * n + 1
    case Joining(r) => 5 * n + if r < |s.reactors| then |s.reactors| - r else 0
    case Stopped => 0
    case AtLoop(i) => Later(n, i) + if i < n && s.units[i].status > 0 then 5 else 2
    case AtDecrement(i) => Later(n, i) + 4
    case AtWrite(i) => Later(n, i) + 3
    case AtJoin(i) => Later(n, i) + 1
  }

  function Later(n: nat, i: nat): nat { if i < n then 5 * (n - 1 - i) else 0 }

  function StopSteps(steps: seq<Step>): nat {
    if steps == [] then 0 else (if steps[0] == Stop then 1 else 0) + StopSteps(steps[1..])
  }

  /** The shutdown ends: every one of its steps, and nothing else, brings it one nearer to its end. */
  lemma {:induction false} StopEnds(s: State, steps: seq<Step>)
    requires Inv(s) && Run(s, steps)
    ensures StopSteps(steps) + StopLeft(After(s, steps)) == StopLeft(s)
    decreases |steps|
  {
    if steps != [] {
      InvStep(s, steps[0]);
      StopStep(s, steps[0]);
      StopEnds(Do(s, steps[0]), steps[1..]);
    }
  }

  lemma StopStep(s: State, a: Step)
    requires Inv(s) && Enabled(s, a)
    ensures StopLeft(Do(s, a)) + (if a == Stop then 1 else 0) == StopLeft(s)
  {
    if s.stopper.AtLoop? || s.stopper.AtDecrement? { assert Stops(s, s.stopper.i); }
  }

  /** When wpool_stop is through, every worker has left, and handled in order what it took. */
  lemma StoppedMeansExited(n: nat, k: nat, rqSize: nat, steps: seq<Step>, i: nat)
    requires i < n && Run(Initial(n, k, rqSize), steps)
    ensures var s := Reached(n, k, rqSize, steps);
      && i < |s.units|
      && (s.stopper == Stopped ==>
            s.units[i].worker == Exited && ForUnit(s.log, n, i) == s.units[i].handled + s.units[i].ring)
  {
    InvReached(n, k, rqSize, steps);
    assert Conserved(Reached(n, k, rqSize, steps), i);
  }

  // ----- what a shutdown leaves behind

  /** Every shutdown from here ends with all packets of unit `i` handled. */
  ghost predicate SurelyHandled(s: State, i: nat)
    requires i < |s.units|
  {
    forall steps | Run(s, steps) && After(s, steps).stopper == Stopped ::
      var t := After(s, steps); t.units[i].handled == ForUnit(t.log, |t.units|, i)
  }

  /** The worker will take what is queued before it tests its status again. */
  predicate Safe(u: Unit) { u.ring == [] || (u.worker == TryPop && |u.ring| == 1) }

  /** No reactor can push any more. */
  ghost predicate Quiet(s: State) { NoReactors(s) || !Fits([], s.rqSize) }

  /** A shutdown is sure to leave nothing of a unit behind if and only if no reactor is left to push and
      at most one packet is queued, which the worker is about to take. */
  lemma SurelyHandledIff(n: nat, k: nat, rqSize: nat, steps: seq<Step>, i: nat)
    requires i < n && Run(Initial(n, k, rqSize), steps)
    ensures var s := Reached(n, k, rqSize, steps);
      && i < |s.units|
      && (SurelyHandled(s, i) <==> Quiet(s) && Safe(s.units[i]))
  {
    hide Inv, Run, After, Do, Enabled, Safe, Quiet;
    InvReached(n, k, rqSize, steps);
    var s := Reached(n, k, rqSize, steps);
    if Quiet(s) && Safe(s.units[i]) {
      forall rest | Run(s, rest) && After(s, rest).stopper == Stopped
        ensures var t := After(s, rest); t.units[i].handled == ForUnit(t.log, |t.units|, i)
      {
        StaysSafe(s, rest, i);
        NothingLeft(After(s, rest), i);
      }
    } else {
      var rest := Spoils(s, i);
      SomethingLeft(After(s, rest), i);
    }
  }

  lemma NothingLeft(s: State, i: nat)
    requires Inv(s) && s.stopper == Stopped && i < |s.units|
    ensures Safe(s.units[i]) ==> s.units[i].handled == ForUnit(s.log, |s.units|, i)
  {
    assert Conserved(s, i);
  }

  lemma SomethingLeft(s: State, i: nat)
    requires Inv(s) && i < |s.units|
    ensures !Safe(s.units[i]) ==> s.units[i].handled != ForUnit(s.log, |s.units|, i)
  {
    assert Conserved(s, i);
  }

  lemma {:induction false} StaysSafe(s: State, steps: seq<Step>, i: nat)
    requires Inv(s) && Run(s, steps) && i < |s.units| && Quiet(s) && Safe(s.units[i])
    ensures Inv(After(s, steps)) && Safe(After(s, steps).units[i])
    decreases |steps|
  {
    hide Inv, Do, Enabled, Safe, Quiet;
    if steps != [] {
      InvStep(s, steps[0]);
      SafeStep(s, steps[0], i);
      StaysSafe(Do(s, steps[0]), steps[1..], i);
    }
  }

  lemma SafeStep(s: State, a: Step, i: nat)
    requires Enabled(s, a) && i < |s.units| && Quiet(s) && Safe(s.units[i])
    ensures var t := Do(s, a); i < |t.units| && Quiet(t) && Safe(t.units[i])
  {
  }

  /** From a state that is not safe, some shutdown leaves a packet behind. */
  lemma Spoils(s: State, i: nat) returns (steps: seq<Step>)
    requires Inv(s) && i < |s.units| && !(Quiet(s) && Safe(s.units[i]))
    ensures Run(s, steps) && After(s, steps).stopper == Stopped && Inv(After(s, steps))
    ensures !Safe(After(s, steps).units[i])
  {
    hide Inv, Do, Enabled;
    if !Safe(s.units[i]) {
      steps := Hurries(s, i);
    } else {
      var first := Endangers(s, i);
      InvRun(s, first);
      var rest := Hurries(After(s, first), i);
      RunAppend(s, first, rest);
      steps := first + rest;
    }
  }

  lemma {:induction false} RunAppend(s: State, a: seq<Step>, b: seq<Step>)
    requires Run(s, a) && Run(After(s, a), b)
    ensures Run(s, a + b) && After(s, a + b) == After(After(s, a), b)
    decreases |a|
  {
    hide Do, Enabled;
    if a == [] {
      assert a + b == b;
    } else {
      RunAppend(Do(s, a[0]), a[1..], b);
      assert (a + b)[0] == a[0] && (a + b)[1..] == a[1..] + b;
    }
  }

  /** A reactor that still runs pushes a packet behind the worker's back. */
  lemma Endangers(s: State, i: nat) returns (steps: seq<Step>)
    requires Inv(s) && i < |s.units| && !Quiet(s) && Safe(s.units[i])
    ensures Run(s, steps) && !Safe(After(s, steps).units[i])
  {
    hide Do, Enabled, Conserved, Wakes, Stops, StopperOk;
    var r :| 0 <= r < |s.reactors| && s.reactors[r] != Gone;
    var pop := Empties(s, i);
    var t := After(s, pop);
    var signal := Signals(t, r, i);
    RunAppend(s, pop, signal);
    var push := [Read(r, Packet(i, []))];
    Pushes(After(t, signal), r, i);
    RunAppend(s, pop + signal, push);
    steps := pop + signal + push;
  }

  lemma Empties(s: State, i: nat) returns (steps: seq<Step>)
    requires i < |s.units| && Safe(s.units[i])
    ensures Run(s, steps) && After(s, steps).reactors == s.reactors
    ensures var u := After(s, steps).units[i]; u.ring == [] && u.worker != TryPop
  {
    steps := if s.units[i].worker == TryPop then [Work(i)] else [];
  }

  lemma Signals(s: State, r: nat, i: nat) returns (steps: seq<Step>)
    requires r < |s.reactors| && s.reactors[r] != Gone && i < |s.units|
    requires s.reactors[r].Signalling? ==> s.reactors[r].u < |s.units|
    ensures Run(s, steps) && |After(s, steps).reactors| == |s.reactors| && After(s, steps).reactors[r] == Idle
    ensures var u := After(s, steps).units[i]; u.ring == s.units[i].ring && u.worker == s.units[i].worker
  {
    steps := if s.reactors[r].Signalling? then [Signal(r)] else [];
  }

  lemma Pushes(s: State, r: nat, i: nat)
    requires r < |s.reactors| && s.reactors[r] == Idle && i < |s.units| && Fits([], s.rqSize)
    requires s.units[i].ring == [] && s.units[i].worker != TryPop
    ensures var steps := [Read(r, Packet(i, []))]; Run(s, steps) && !Safe(After(s, steps).units[i])
  {
    assert i % |s.units| == i;
    var t := Do(s, Read(r, Packet(i, [])));
    assert t.units[i].ring == [Packet(i, [])];
  }

  /** The shutdown takes its next step, or else the reactor or the worker it waits for does. */
  function Hurry(s: State): Step {
    if Enabled(s, Stop) then Stop
    else if s.stopper.Joining? then
      if Enabled(s, Leave(s.stopper.r)) then Leave(s.stopper.r) else Signal(s.stopper.r)
    else if s.stopper.AtJoin? then Work(s.stopper.i)
    else Stop
  }

  /** What the one it waits for has left. */
  function Awaited(s: State): nat {
    match s.stopper
    case Joining(r) =>
      if r < |s.reactors| then match s.reactors[r] case Signalling(_) => 2 case Idle => 1 case Gone => 0 else 0
    case AtJoin(i) => if i < |s.units| then Remaining(s.units[i].worker) else 0
    case _ => 0
  }

  /** In a shutdown in which only those move, a unit that is not safe stays so to the end. */
  lemma {:induction false} Hurries(s: State, i: nat) returns (steps: seq<Step>)
    requires Inv(s) && i < |s.units| && !Safe(s.units[i])
    ensures Run(s, steps) && After(s, steps).stopper == Stopped && Inv(After(s, steps))
    ensures !Safe(After(s, steps).units[i])
    decreases StopLeft(s), Awaited(s)
  {
    hide Inv, Do, Enabled, Safe, StopLeft, Awaited;
    steps := [];
    if s.stopper != Stopped {
      var a := Hurry(s);
      HurryStep(s, i);
      InvStep(s, a);
      StopStep(s, a);
      var rest := Hurries(Do(s, a), i);
      steps := [a] + rest;
      assert steps[1..] == rest;
    }
  }

  lemma HurryStep(s: State, i: nat)
    requires Inv(s) && i < |s.units| && !Safe(s.units[i]) && s.stopper != Stopped
    ensures Enabled(s, Hurry(s))
    ensures var t := Do(s, Hurry(s));
      i < |t.units| && !Safe(t.units[i]) && (Hurry(s) != Stop ==> Awaited(t) < Awaited(s))
  {
    assert s.stopper.AtJoin? || s.stopper.AtLoop? || s.stopper.AtDecrement? ==> Stops(s, s.stopper.i);
  }

  // ----- a packet left behind

  /** A packet is pushed and signalled just before the shutdown begins; its reactor leaves, and the worker
      leaves at its next test of the status. */
  function Script(p: Packet): seq<Step> {
    [Read(0, p), Signal(0), Stop, Leave(0), Stop, Stop, Stop, Stop, Stop, Work(0), Stop]
  }

  /** The states of that run, with one unit, one reactor and room for one packet. */
  function Scene(k: nat, p: Packet): State {
    var start := Initial(1, 1, LSZ + PACK_SIZE);
    if k == 0 then start else
    var efd := if k < 2 then 0 else if k < 8 then 1 else 0x10;
    var u := Unit([p], efd, if k < 7 then 1 else 0, if k < 10 then Check else Exited, []);
    var r := if k < 2 then Signalling(0) else if k < 4 then Idle else Gone;
    State([u], [r], Standing(k), [p], start.rqSize)
  }

  function Standing(k: nat): Stopper {
    match k
    case 1 => NotStopping
    case 2 => NotStopping
    case 3 => Joining(0)
    case 4 => Joining(0)
    case 5 => AtLoop(0)
    case 6 => AtDecrement(0)
    case 7 => AtWrite(0)
    case 8 => AtLoop(0)
    case 11 => Stopped
    case _ => AtJoin(0)
  }

  lemma SceneStarts(p: Packet)
    ensures Enabled(Scene(0, p), Read(0, p)) && Do(Scene(0, p), Read(0, p)) == Scene(1, p)
  {
    var s := Scene(0, p);
    assert s == State([Unit([], 0, 1, Check, [])], [Idle], NotStopping, [], LSZ + PACK_SIZE);
    assert p.fd % |s.units| == 0 && Fits([], s.rqSize) && [] + [p] == [p];
  }

  lemma SceneStep(k: nat, p: Packet)
    requires 1 <= k < 11
    ensures Enabled(Scene(k, p), Script(p)[k]) && Do(Scene(k, p), Script(p)[k]) == Scene(k + 1, p)
  {
  }

  lemma {:induction false} SceneRun(k: nat, p: Packet)
    requires k <= 11
    ensures Run(Scene(k, p), Script(p)[k..]) && After(Scene(k, p), Script(p)[k..]) == Scene(11, p)
    decreases 11 - k
  {
    hide Scene, Do, Enabled;
    if k < 11 {
      if k == 0 { SceneStarts(p); } else { SceneStep(k, p); }
      SceneRun(k + 1, p);
      assert Script(p)[k..][0] == Script(p)[k] && Script(p)[k..][1..] == Script(p)[k + 1..];
    }
  }

  /** What wpool_stop leaves behind is never handled. */
  lemma LeftBehind(p: Packet)
    ensures Run(Initial(1, 1, LSZ + PACK_SIZE), Script(p))
    ensures var s := Reached(1, 1, LSZ + PACK_SIZE, Script(p));
      && s.stopper == Stopped && s.reactors == [Gone] && |s.units| == 1 && s.units[0].worker == Exited
      && s.log == [p] && s.units[0].ring == [p] && s.units[0].handled == []
  {
    SceneRun(0, p);
    assert Script(p)[0..] == Script(p);
  }
}
