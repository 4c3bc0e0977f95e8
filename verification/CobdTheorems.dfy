/** Results about every run of the block protocol. */
module CobdTheorems {
  import opened CobdPool
  import opened CobdProtocol
  import opened Words
  import opened CobdInvariants

  lemma SubmitStep(s: State, w: Work)
    requires Inv(s) && s.lane == Idle && w.unit < UNITS && w.tag < DEPTH && w.tag !in s.inFlight[w.unit]
    ensures Inv(DoSubmit(s, w)) && s.pool.free != []
  {
    Bounds(s);
    var u := w.unit;
    UnitLoad(s.pool, u, s.worker[u], s.accepted[u], s.served[u], s.log, s.taken);
    NodesSubmit(s.pool, s.worker, w);
    OrderSubmit(s.pool, s.worker, s.accepted, s.served, s.log, w);
    FlightSubmit(s.accepted, s.inFlight, s.log, s.taken, w);
    ProducerSubmit(s.pool, s.worker, s.slots, s.log, s.pool.free[0], w);
    WakeSubmit(s, u, s.pool.queue[u] + [s.pool.free[0]]);
  }

  lemma PopSome(s: State, u: nat)
    requires DataOk(s) && u < UNITS && s.worker[u] == Popping && s.pool.queue[u] != []
    ensures DataOk(DoPop(s, u))
  {
    var w := Holding(s.pool.queue[u][0]);
    NodesPop(s.pool, s.worker, u);
    OrderPop(s.pool, s.worker, s.accepted, s.served, s.log, u);
    ProducerMove(s.pool.work, s.worker, s.slots, s.log, u, w);
  }

  lemma PopStep(s: State, u: nat)
    requires Inv(s) && u < UNITS && s.worker[u] == Popping
    ensures Inv(DoPop(s, u))
  {
    if s.pool.queue[u] == [] {
      MoveKeeps(s, u, Empty);
      WakeEmpty(s, u);
    } else {
      PopSome(s, u);
      WakeMove(s, u, Holding(s.pool.queue[u][0]), s.pool.queue[u][1..]);
    }
  }

  /** Everything but the wakeup invariant, for a worker that only moves along. */
  lemma MoveKeeps(s: State, u: nat, w: Worker)
    requires Inv(s) && u < UNITS && !InRing(w)
    requires HoldsNode(w) == HoldsNode(s.worker[u]) && (HoldsNode(w) ==> w.node == s.worker[u].node)
    requires w.Holding? == s.worker[u].Holding?
    requires !w.Finished? && !s.worker[u].Finished? && !s.worker[u].Locked? && !s.worker[u].Written?
    ensures NodesOk(s.pool, s.worker[u := w])
    ensures ProducerOk(s.pool.work, s.worker[u := w], s.slots, s.log)
    ensures OrderOk(s.pool, s.worker[u := w], s.accepted, s.served, s.log)
  {
    NodesMove(s.pool, s.worker, u, w);
    ProducerMove(s.pool.work, s.worker, s.slots, s.log, u, w);
    assert UnitOrder(s.pool.work, s.pool.queue[u], u, s.worker[u], s.accepted[u], s.served[u], s.log);
    OrderMove(s.pool, s.worker, s.accepted, s.served, s.log, u, w);
  }

  lemma CheckStep(s: State, u: nat)
    requires Inv(s) && u < UNITS && s.worker[u] == Empty
    ensures Inv(DoCheck(s, u))
  {
    MoveKeeps(s, u, if s.stopping then Exited else Asleep);
    WakeCheck(s, u);
  }

  lemma RouseStep(s: State, u: nat)
    requires Inv(s) && u < UNITS && s.worker[u] == Asleep
    ensures Inv(DoRouse(s, u))
  {
    MoveKeeps(s, u, Popping);
    WakeRouse(s, u);
  }

  lemma TransferData(s: State, u: nat, result: nat)
    requires DataOk(s) && u < UNITS && s.worker[u].Holding? && s.worker[u].node < NODES
    ensures DataOk(DoTransfer(s, u, result))
  {
    var w := Finished(s.worker[u].node, result);
    NodesMove(s.pool, s.worker, u, w);
    ProducerMove(s.pool.work, s.worker, s.slots, s.log, u, w);
    OrderTransfer(s.pool, s.worker, s.accepted, s.served, s.log, u, result);
  }

  lemma TransferStep(s: State, u: nat, result: nat)
    requires Inv(s) && u < UNITS && s.worker[u].Holding? && s.worker[u].node < NODES
    ensures Inv(DoTransfer(s, u, result))
  {
    TransferData(s, u, result);
    WakeMove(s, u, Finished(s.worker[u].node, result), s.pool.queue[u]);
    assert s.pool.queue[u := s.pool.queue[u]] == s.pool.queue;
  }

  lemma LockStep(s: State, u: nat)
    requires Inv(s) && u < UNITS && s.worker[u].Finished? && forall v :: 0 <= v < UNITS ==> !InRing(s.worker[v])
    ensures Inv(DoLock(s, u)) && DoLock(s, u).worker[u].Locked?
  {
    Bounds(s);
    var w := Locked(s.worker[u].node, s.worker[u].result);
    NodesMove(s.pool, s.worker, u, w);
    ProducerLock(s.pool.work, s.worker, s.slots, s.log, u);
    assert UnitOrder(s.pool.work, s.pool.queue[u], u, s.worker[u], s.accepted[u], s.served[u], s.log);
    OrderMove(s.pool, s.worker, s.accepted, s.served, s.log, u, w);
    WakeMove(s, u, w, s.pool.queue[u]);
    assert s.pool.queue[u := s.pool.queue[u]] == s.pool.queue;
  }

  lemma WriteStep(s: State, u: nat)
    requires Inv(s) && u < UNITS && s.worker[u].Locked? && s.worker[u].node < NODES
    ensures Inv(DoWrite(s, u))
  {
    Bounds(s);
    var w := Written(s.worker[u].node, s.worker[u].result);
    NodesMove(s.pool, s.worker, u, w);
    RingWrite(s.slots, s.head, s.tail, s.log, s.taken, RecordOf(s.pool.work, s.worker[u]));
    ProducerWrite(s.pool.work, s.worker, s.slots, s.log, u);
    assert UnitOrder(s.pool.work, s.pool.queue[u], u, s.worker[u], s.accepted[u], s.served[u], s.log);
    OrderMove(s.pool, s.worker, s.accepted, s.served, s.log, u, w);
    WakeMove(s, u, w, s.pool.queue[u]);
    assert s.pool.queue[u := s.pool.queue[u]] == s.pool.queue;
  }

  lemma PublishRing(s: State, u: nat, r: Rec, w: Worker)
    requires RingOk(s.slots, s.head, s.tail, s.log, s.taken) && ProducerOk(s.pool.work, s.worker, s.slots, s.log)
    requires u < UNITS && s.worker[u].Written? && s.worker[u].node < |s.pool.work|
    requires r == RecordOf(s.pool.work, s.worker[u]) && w == Freeing(s.worker[u].node)
    ensures RingOk(s.slots, (s.head + 1) % WORD, s.tail, s.log + [r], s.taken)
    ensures ProducerOk(s.pool.work, s.worker[u := w], s.slots, s.log + [r])
  {
    RingPublish(s.slots, s.head, s.tail, s.log, s.taken, r);
    ProducerPublish(s.pool.work, s.worker, s.slots, s.log, u, r);
  }

  lemma PublishOrder(s: State, u: nat, r: Rec, w: Worker)
    requires NodesOk(s.pool, s.worker) && OrderOk(s.pool, s.worker, s.accepted, s.served, s.log)
    requires u < UNITS && s.worker[u].Written? && s.worker[u].node < NODES
    requires r == RecordOf(s.pool.work, s.worker[u]) && w == Freeing(s.worker[u].node)
    ensures NodesOk(s.pool, s.worker[u := w])
    ensures OrderOk(s.pool, s.worker[u := w], s.accepted, s.served, s.log + [r])
  {
    assert UnitNodes(s.pool.work, s.pool.owner, s.pool.queue[u], u, s.worker[u]);
    NodesMove(s.pool, s.worker, u, w);
    OrderPublish(s.pool, s.worker, s.accepted, s.served, s.log, u);
  }

  lemma PublishData(s: State, u: nat)
    requires DataOk(s) && u < UNITS && s.worker[u].Written? && s.worker[u].node < NODES
    ensures DataOk(DoPublish(s, u))
  {
    var r, w := RecordOf(s.pool.work, s.worker[u]), Freeing(s.worker[u].node);
    PublishRing(s, u, r, w);
    PublishOrder(s, u, r, w);
  }

  lemma PublishControl(s: State, u: nat)
    requires ControlOk(s) && u < UNITS && s.worker[u].Written? && s.worker[u].node < |s.pool.work|
    ensures ControlOk(DoPublish(s, u))
  {
    var r := RecordOf(s.pool.work, s.worker[u]);
    FlightPublish(s.accepted, s.inFlight, s.log, s.taken, |s.ended|, r);
    LanePublish(s.lane, s.log, s.taken, s.ended, r);
    WakeMove(s, u, Freeing(s.worker[u].node), s.pool.queue[u]);
    assert s.pool.queue[u := s.pool.queue[u]] == s.pool.queue;
  }

  lemma PublishStep(s: State, u: nat)
    requires Inv(s) && u < UNITS && s.worker[u].Written? && s.worker[u].node < NODES
    ensures Inv(DoPublish(s, u))
  {
    PublishData(s, u);
    PublishControl(s, u);
  }

  lemma FreeData(s: State, u: nat)
    requires DataOk(s) && u < UNITS && s.worker[u].Freeing? && s.worker[u].node < NODES
    ensures DataOk(DoFree(s, u))
  {
    NodesFree(s.pool, s.worker, u);
    ProducerMove(s.pool.work, s.worker, s.slots, s.log, u, Popping);
    assert UnitOrder(s.pool.work, s.pool.queue[u], u, s.worker[u], s.accepted[u], s.served[u], s.log);
    OrderMove(s.pool, s.worker, s.accepted, s.served, s.log, u, Popping);
  }

  lemma FreeStep(s: State, u: nat)
    requires Inv(s) && u < UNITS && s.worker[u].Freeing? && s.worker[u].node < NODES
    ensures Inv(DoFree(s, u))
  {
    FreeData(s, u);
    WakeMove(s, u, Popping, s.pool.queue[u]);
    assert s.pool.queue[u := s.pool.queue[u]] == s.pool.queue;
  }

  lemma DrainStartStep(s: State)
    requires Inv(s) && s.lane == Idle
    ensures Inv(DoDrainStart(s)) && DoDrainStart(s).tail == s.tail
    ensures s.log[s.taken..] != [] ==> DoDrainStart(s).lane.Draining?
  {
    Bounds(s);
    if s.head != s.tail {
      WakeLane(s, Draining(s.head, s.tail, s.taken, |s.log|));
      assert DataOk(DoDrainStart(s));
    }
  }

  /** The record the drain reads is the one published, and answers the unit's oldest request. */
  lemma DrainReads(s: State)
    requires Inv(s) && s.lane.Draining? && s.lane.tail != s.lane.head
    ensures s.lane.at < s.lane.end && s.slots[s.lane.tail % SLOTS] == s.log[s.lane.at]
    ensures var (r, k) := (s.log[s.lane.at], |Filter(s.log[..s.lane.at], s.log[s.lane.at].unit)|);
            && r.unit < UNITS && k < |s.accepted[r.unit]| && s.accepted[r.unit][k].tag == r.tag
  {
    var at := s.lane.at;
    Behind(at, s.lane.end);
    var u := s.log[at].unit;
    SlotOf(at);
    FilterAt(s.log, at);
    assert UnitOrder(s.pool.work, s.pool.queue[u], u, s.worker[u], s.accepted[u], s.served[u], s.log);
    var k := |Filter(s.log[..at], u)|;
    assert Records(s.served[u])[k] == s.log[at];
    assert Works(s.served[u])[k] == s.accepted[u][k];
  }

  lemma DrainOneControl(s: State, u: nat)
    requires ControlOk(s) && s.lane.Draining? && s.lane.at < s.lane.end && |s.slots| == SLOTS
    requires var r := s.log[s.lane.at]; s.slots[s.lane.tail % SLOTS] == r && r.unit == u < UNITS
    requires var k := |Filter(s.log[..s.lane.at], u)|;
             k < |s.accepted[u]| && s.accepted[u][k].tag == s.log[s.lane.at].tag
    ensures ControlOk(DoDrainOne(s)) && DoDrainOne(s).ended == s.ended + [s.log[s.lane.at]]
  {
    FlightDrain(s.accepted, s.inFlight, s.log, s.taken, s.lane.at);
    LaneDrain(s.lane, s.log, s.taken, s.ended);
    WakeLane(s, DoDrainOne(s).lane);
  }

  /** Each record read ends the request it answers. */
  lemma DrainOneStep(s: State)
    requires Inv(s) && s.lane.Draining? && s.lane.tail != s.lane.head
    ensures Inv(DoDrainOne(s))
    ensures s.lane.at < |s.log| && DoDrainOne(s).ended == s.ended + [s.log[s.lane.at]]
  {
    DrainReads(s);
    DrainOneControl(s, s.log[s.lane.at].unit);
    assert DataOk(DoDrainOne(s));
  }

  lemma DrainEndStep(s: State)
    requires Inv(s) && s.lane.Draining? && s.lane.tail == s.lane.head
    ensures Inv(DoDrainEnd(s))
    ensures s.lane.at == s.lane.end
  {
    Bounds(s);
    FlightStore(s.accepted, s.inFlight, s.log, s.taken, s.lane.at);
    Gap(s.lane.end % WORD, s.lane.end, s.lane.at % WORD, s.lane.at);
    WakeLane(s, Idle);
  }

  lemma WakeStep(s: State)
    requires Inv(s) && s.lane.Submitted? && s.lane.unit < UNITS
    ensures Inv(DoWake(s))
  {
    WakeLatch(s, s.lane.unit, Idle);
  }

  lemma StopStep(s: State)
    requires Inv(s) && (s.lane.Idle? || s.lane.Draining?)
    ensures Inv(DoStop(s))
  {
    WakeLane(s, Stopping(0));
  }

  lemma StopWakeStep(s: State)
    requires Inv(s) && s.lane.Stopping? && s.lane.woken < s.started
    ensures Inv(DoStopWake(s))
  {
    WakeLatch(s, s.lane.woken, Stopping(s.lane.woken + 1));
  }

  lemma JoinStep(s: State)
    requires Inv(s)
    requires (s.lane.Stopping? && s.lane.woken == s.started)
             || (s.lane.Joining? && s.lane.joined < s.started && s.worker[s.lane.joined] == Exited)
    ensures Inv(DoJoin(s))
  {
    WakeJoin(s);
    assert DataOk(DoJoin(s));
  }

  lemma WorkerStep(s: State, step: Step)
    requires Inv(s) && Shaped(s) && Enabled(s, step)
    requires step.Pop? || step.Check? || step.Rouse? || step.Transfer? || step.Lock?
             || step.WriteSlot? || step.Publish? || step.Free?
    ensures Inv(Apply(s, step))
  {
    match step
    case Pop(u) => PopStep(s, u);
    case Check(u) => CheckStep(s, u);
    case Rouse(u) => RouseStep(s, u);
    case Transfer(u, result) => TransferStep(s, u, result);
    case Lock(u) => LockStep(s, u);
    case WriteSlot(u) => WriteStep(s, u);
    case Publish(u) => PublishStep(s, u);
    case Free(u) => FreeStep(s, u);
  }

  lemma GuestStep(s: State, step: Step)
    requires Inv(s) && Shaped(s) && Enabled(s, step)
    requires step.Submit? || step.Wake? || step.DrainStart? || step.DrainOne? || step.DrainEnd?
    ensures Inv(Apply(s, step))
  {
    match step
    case Submit(w) => SubmitStep(s, w);
    case Wake => WakeStep(s);
    case DrainStart => DrainStartStep(s);
    case DrainOne => DrainOneStep(s);
    case DrainEnd => DrainEndStep(s);
  }

  lemma StoppingStep(s: State, step: Step)
    requires Inv(s) && Shaped(s) && Enabled(s, step) && (step == Stop || step == StopWake || step == Join)
    ensures Inv(Apply(s, step))
  {
    match step
    case Stop => StopStep(s);
    case StopWake => StopWakeStep(s);
    case Join => JoinStep(s);
  }

  /** Every step before the final one keeps the invariant. */
  lemma InvStep(s: State, step: Step)
    requires Inv(s) && Shaped(s) && Enabled(s, step) && step != Retire
    ensures Inv(Apply(s, step))
  {
    if step.Submit? || step.Wake? || step.DrainStart? || step.DrainOne? || step.DrainEnd? {
      GuestStep(s, step);
    } else if step == Stop || step == StopWake || step == Join {
      StoppingStep(s, step);
    } else {
      WorkerStep(s, step);
    }
  }

  // ----- Runs -----

  ghost predicate CanRun(s: State, steps: seq<Step>)
    decreases |steps|
  {
    steps == [] || (Shaped(s) && Enabled(s, steps[0]) && CanRun(Apply(s, steps[0]), steps[1..]))
  }

  ghost function Exec(s: State, steps: seq<Step>): State
    requires CanRun(s, steps)
    decreases |steps|
  {
    if steps == [] then s else Exec(Apply(s, steps[0]), steps[1..])
  }

  /** States some interleaving leads to, before the ring is retired. */
  ghost predicate Reachable(s: State) {
    exists s0, steps :: Init(s0) && CanRun(s0, steps) && Retire !in steps && s == Exec(s0, steps)
  }

  lemma {:induction false} RunInv(s: State, steps: seq<Step>)
    requires Inv(s) && CanRun(s, steps) && Retire !in steps
    ensures Inv(Exec(s, steps))
    decreases |steps|
  {
    if steps == [] {
    } else {
      InvStep(s, steps[0]);
      RunInv(Apply(s, steps[0]), steps[1..]);
    }
  }

  lemma ReachableInv(s: State)
    requires Reachable(s)
    ensures Inv(s) && Shaped(s)
  {
    var s0, steps :| Init(s0) && CanRun(s0, steps) && Retire !in steps && s == Exec(s0, steps);
    InitInv(s0);
    RunInv(s0, steps);
    InvShaped(s);
  }

  /** The records the guest has still to read, as they lie in its memory. */
  function Unread(s: State): seq<Rec>
    requires |s.slots| == SLOTS
  {
    var from := |s.ended| % WORD;
    seq(Sub32(s.head, from), i requires 0 <= i => s.slots[(from + i) % WORD % SLOTS])
  }

  lemma WordPlus(n: nat, i: nat)
    ensures (n % WORD + i) % WORD == (n + i) % WORD
  {
  }

  lemma UnreadWindow(slots: seq<Rec>, head: nat, tail: nat, log: seq<Rec>, taken: nat, at: nat, i: nat)
    requires RingOk(slots, head, tail, log, taken) && taken <= at && at + i < |log|
    ensures slots[(at % WORD + i) % WORD % SLOTS] == log[at + i]
  {
    WordPlus(at, i);
    SlotOf(at + i);
  }

  lemma UnreadLength(s: State)
    requires |s.slots| == SLOTS && s.head == |s.log| % WORD && s.tail == s.taken % WORD
    requires LaneOk(s.lane, s.log, s.taken, s.ended) && |s.log| - |s.ended| < WORD
    ensures |Unread(s)| == |s.log| - |s.ended|
  {
    Gap(|s.log| % WORD, |s.log|, |s.ended| % WORD, |s.ended|);
  }

  lemma UnreadIsLog(s: State)
    requires RingOk(s.slots, s.head, s.tail, s.log, s.taken) && LaneOk(s.lane, s.log, s.taken, s.ended)
    requires |s.log| - s.taken < WORD
    ensures s.log == s.ended + Unread(s)
  {
    var (at, t) := (|s.ended|, Unread(s));
    UnreadLength(s);
    forall i | 0 <= i < |t| ensures t[i] == s.log[at..][i] {
      UnreadWindow(s.slots, s.head, s.tail, s.log, s.taken, at, i);
    }
    assert t == s.log[at..];
  }

  lemma FilterConcat(a: seq<Rec>, b: seq<Rec>, u: nat)
    ensures Filter(a + b, u) == Filter(a, u) + Filter(b, u)
  {
    if b == [] {
      assert a + b == a;
    } else {
      var (init, r) := (b[..|b| - 1], b[|b| - 1]);
      FilterConcat(a, init, u);
      assert a + b == (a + init) + [r];
      FilterSnoc(a + init, r, u);
    }
  }

  /** Conservation and order: a unit's accepted requests are, in order, the ones transferred, the
      one its worker is transferring and the ones queued; the ones transferred are, in order,
      the ones ended, the ones whose record lies unread in the ring and the one being posted.
      The guest's own index, the stored one outside a drain, says where the unread ones begin. */
  lemma Conservation(s: State, u: nat)
    requires Reachable(s) && u < UNITS
    ensures |s.slots| == SLOTS && |s.worker| == |s.pool.queue| == |s.accepted| == |s.served| == UNITS
    ensures InRange(s.pool.work, s.pool.queue[u], s.worker[u])
    ensures s.accepted[u] == Works(s.served[u]) + HeldWork(s.pool.work, s.worker[u])
                             + QueuedWork(s.pool.work, s.pool.queue[u])
    ensures Records(s.served[u]) == Filter(s.ended, u) + Filter(Unread(s), u) + Posting(s.pool.work, s.worker[u])
    ensures s.lane.Draining? ==> s.lane.tail == |s.ended| % WORD
    ensures s.lane.Idle? || s.lane.Submitted? ==> s.tail == |s.ended| % WORD
  {
    ReachableInv(s);
    InvConserves(s, u);
  }

  lemma InvConserves(s: State, u: nat)
    requires Inv(s) && u < UNITS
    ensures UnitOrder(s.pool.work, s.pool.queue[u], u, s.worker[u], s.accepted[u], s.served[u], s.log)
    ensures Filter(s.log, u) == Filter(s.ended, u) + Filter(Unread(s), u)
  {
    Bounds(s);
    UnreadIsLog(s);
    FilterConcat(s.ended, Unread(s), u);
  }

  /** Four units of depth sixteen bound the ring and the pool. */
  lemma NeverFull(s: State)
    requires Reachable(s)
    ensures |s.pool.queue| == |s.worker| == 4
    ensures Sub32(s.head, s.tail) <= 64
    ensures InUse(s.pool, s.worker) <= 68 && |s.pool.free| + InUse(s.pool, s.worker) == 128
  {
    ReachableInv(s);
    Bounds(s);
  }

  /** So the busy, ring-full and resynchronise branches are dead. */
  lemma DeadBranches(s: State, step: Step)
    requires Reachable(s) && Shaped(s) && Enabled(s, step)
    ensures step.Submit? ==> Apply(s, step).lane == Submitted(step.w.unit)
    ensures step.Lock? ==> Apply(s, step).worker[step.u].Locked?
    ensures step.DrainStart? ==> Apply(s, step).tail == s.tail
    ensures step.DrainOne? ==> |Apply(s, step).ended| == |s.ended| + 1
  {
    ReachableInv(s);
    match step
    case Submit(w) => SubmitStep(s, w);
    case Lock(u) => LockStep(s, u);
    case DrainStart => DrainStartStep(s);
    case DrainOne => DrainOneStep(s);
    case _ =>
  }

  /** No worker sleeps on a non-empty queue unless its wakeup is set or about to be. */
  lemma NoLostWakeup(s: State, u: nat)
    requires Reachable(s) && u < UNITS
    ensures |s.worker| == |s.latch| == |s.pool.queue| == UNITS
    ensures s.worker[u] == Asleep && s.pool.queue[u] != [] ==> s.latch[u] || s.lane == Submitted(u)
  {
    ReachableInv(s);
    assert UnitAwake(u, s.worker[u], s.pool.queue[u], s.latch[u], s.lane);
  }
}
