/** Stopping the block protocol: it ends, it leaves nothing running, and exactly which accepted
    requests it drops unstarted. */
module CobdStop {
  import opened CobdPool
  import opened CobdProtocol
  import opened CobdInvariants
  import opened CobdTheorems

  // ----- A stop ends -----

  predicate WorkerMove(step: Step) {
    step.Pop? || step.Check? || step.Rouse? || step.Transfer? || step.Lock? || step.WriteSlot?
        || step.Publish? || step.Free?
  }

  lemma CanMove(s: State, u: nat)
    requires Sized(s) && u < UNITS && s.worker[u] !in {Exited, Absent} && (s.worker[u] == Asleep ==> s.latch[u])
    ensures exists step :: WorkerMove(step) && Enabled(s, step)
  {
    if v :| 0 <= v < UNITS && InRing(s.worker[v]) {
      assert Enabled(s, if s.worker[v].Locked? then WriteSlot(v) else Publish(v));
    } else {
      match s.worker[u]
      case Popping => assert Enabled(s, Pop(u));
      case Empty => assert Enabled(s, Check(u));
      case Asleep => assert Enabled(s, Rouse(u));
      case Holding(_) => assert Enabled(s, Transfer(u, 0));
      case Finished(_, _) => assert Enabled(s, Lock(u));
      case Freeing(_) => assert Enabled(s, Free(u));
    }
  }

  /** How many steps a worker is from leaving, its queue apart. */
  function Weight(w: Worker): nat {
    match w
    case Absent | Exited => 0
    case Empty => 1
    case Popping => 2
    case Asleep | Freeing(_) => 3
    case Written(_, _) => 4
    case Locked(_, _) => 5
    case Finished(_, _) => 6
    case Holding(_) => 7
  }

  function LaneLeft(lane: Lane, started: nat): int {
    match lane
    case Stopping(woken) => 2 * started + 1 - woken
    case Joining(joined) => started - joined
    case _ => 0
  }

  function Left(w: Worker, q: seq<nat>): nat {
    Weight(w) + 6 * |q|
  }

  /** A bound on the steps still to come while stopping. */
  function Remaining(s: State): int
    requires |s.worker| == |s.pool.queue| == UNITS
  {
    Left(s.worker[0], s.pool.queue[0]) + Left(s.worker[1], s.pool.queue[1])
    + Left(s.worker[2], s.pool.queue[2]) + Left(s.worker[3], s.pool.queue[3]) + LaneLeft(s.lane, s.started)
  }

  /** One worker comes closer, no other moves, and no request comes or goes. */
  ghost predicate Closer(s: State, t: State, u: nat)
    requires |s.worker| == |s.pool.queue| == UNITS && u < UNITS
  {
    && t.started == s.started && t.stopping == s.stopping && t.lane == s.lane
    && t.accepted == s.accepted && t.pool.work == s.pool.work
    && |t.worker| == |t.pool.queue| == UNITS
    && t.worker == s.worker[u := t.worker[u]] && t.pool.queue == s.pool.queue[u := t.pool.queue[u]]
    && Left(t.worker[u], t.pool.queue[u]) < Left(s.worker[u], s.pool.queue[u])
  }

  lemma WorkerCloser(s: State, step: Step)
    requires Shaped(s) && Enabled(s, step) && WorkerMove(step) && s.stopping
    ensures Closer(s, Apply(s, step), step.u)
  {
    if step.Pop? || step.Check? || step.Rouse? || step.Free? {
      QueueCloser(s, step);
    } else {
      RingCloser(s, step);
    }
  }

  lemma QueueCloser(s: State, step: Step)
    requires Shaped(s) && Enabled(s, step) && s.stopping && (step.Pop? || step.Check? || step.Rouse? || step.Free?)
    ensures Closer(s, Apply(s, step), step.u)
  {
  }

  lemma RingCloser(s: State, step: Step)
    requires Shaped(s) && Enabled(s, step) && (step.Transfer? || step.Lock? || step.WriteSlot? || step.Publish?)
    ensures Closer(s, Apply(s, step), step.u)
  {
  }

  /** In the middle of a stop. */
  ghost predicate Winding(s: State) {
    && s.stopping && |s.worker| == |s.pool.queue| == UNITS
    && (s.lane.Stopping? || s.lane.Joining?) && 0 <= LaneLeft(s.lane, s.started)
  }

  lemma CloserCounts(s: State, t: State, u: nat)
    requires Winding(s) && u < UNITS && Closer(s, t, u)
    ensures Winding(t) && Remaining(t) < Remaining(s)
  {
  }

  /** While stopping, every step before the last brings the end closer. */
  lemma StopProgress(s: State, step: Step)
    requires Winding(s) && Shaped(s) && Enabled(s, step) && step != Retire
    ensures Winding(Apply(s, step)) && Remaining(Apply(s, step)) < Remaining(s)
  {
    if WorkerMove(step) {
      WorkerCloser(s, step);
      CloserCounts(s, Apply(s, step), step.u);
    }
  }

  lemma {:induction false} RunRemaining(s: State, steps: seq<Step>)
    requires Winding(s) && CanRun(s, steps) && Retire !in steps
    ensures |steps| <= Remaining(s)
    decreases |steps|
  {
    if steps == [] {
    } else {
      StopProgress(s, steps[0]);
      RunRemaining(Apply(s, steps[0]), steps[1..]);
    }
  }

  /** Four workers, sixty-four requests, one stop. */
  const STOP_STEPS: nat := 421

  lemma InvWinding(s: State)
    requires Inv(s) && s.stopping
    ensures Winding(s) && s.started <= UNITS
    ensures |s.pool.queue[0]| + |s.pool.queue[1]| + |s.pool.queue[2]| + |s.pool.queue[3]| <= UNITS * DEPTH
  {
    Load(s);
  }

  lemma RemainingBound(s: State)
    requires Winding(s) && s.started <= UNITS
    requires |s.pool.queue[0]| + |s.pool.queue[1]| + |s.pool.queue[2]| + |s.pool.queue[3]| <= UNITS * DEPTH
    ensures Remaining(s) <= STOP_STEPS
  {
  }

  /** However its steps interleave, a stop is over after 421 of them at most. */
  lemma StopEnds(s: State, steps: seq<Step>)
    requires Reachable(s) && s.stopping && CanRun(s, steps) && Retire !in steps
    ensures |steps| <= STOP_STEPS
  {
    ReachableInv(s);
    InvWinding(s);
    RunRemaining(s, steps);
    RemainingBound(s);
  }

  lemma StopCanMove(s: State)
    requires Sized(s) && |s.pool.queue| == UNITS && s.stopping && s.lane != Joining(s.started)
    requires WakeOk(s.started, s.worker, s.latch, s.pool.queue, s.lane, s.stopping)
    ensures exists step :: step != Retire && Enabled(s, step)
  {
    if s.lane.Stopping? {
      assert Enabled(s, if s.lane.woken < s.started then StopWake else Join);
    } else {
      var u := s.lane.joined;
      assert UnitStops(u, s.started, s.worker[u], s.latch[u], s.stopping, s.lane);
      if s.worker[u] == Exited {
        assert Enabled(s, Join);
      } else {
        CanMove(s, u);
      }
    }
  }

  /** And it never stands still: until every worker is joined, some step can be taken, so the
      steps run out only there. */
  lemma StopNeverHangs(s: State)
    requires Reachable(s) && Sized(s) && s.stopping && s.lane != Joining(s.started)
    ensures exists step :: step != Retire && Enabled(s, step)
  {
    ReachableInv(s);
    StopCanMove(s);
  }

  // ----- What is left when it has ended -----

  lemma AllGone(s: State)
    requires Inv(s) && s.lane.Joining? && s.lane.joined == s.started
    ensures forall v :: 0 <= v < UNITS ==> s.worker[v] == Exited || s.worker[v] == Absent
  {
    forall v | 0 <= v < UNITS ensures s.worker[v] == Exited || s.worker[v] == Absent {
      assert UnitStops(v, s.started, s.worker[v], s.latch[v], s.stopping, s.lane);
    }
  }

  lemma GoneIsFinal(s: State, step: Step)
    requires Sized(s) && forall v :: 0 <= v < UNITS ==> s.worker[v] == Exited || s.worker[v] == Absent
    requires s.lane == Stopped || s.lane == Joining(s.started)
    ensures Enabled(s, step) ==> step == Retire && s.lane != Stopped
  {
  }

  /** Once stop has joined, only the ring's retirement is left to do, and nothing after it. */
  lemma StopIsFinal(s: State, step: Step)
    requires Reachable(s) && s.lane.Joining? && s.lane.joined == s.started
    ensures Shaped(s) && Enabled(s, Retire)
    ensures Enabled(s, step) ==> step == Retire
    ensures !Enabled(Apply(s, Retire), step)
  {
    ReachableInv(s);
    AllGone(s);
    GoneIsFinal(s, step);
    GoneIsFinal(Apply(s, Retire), step);
  }

  lemma UnitDone(work: seq<Work>, q: seq<nat>, u: nat, w: Worker, accepted: seq<Work>, served: seq<Done>, log: seq<Rec>)
    requires UnitOrder(work, q, u, w, accepted, served, log) && !HoldsNode(w)
    ensures accepted == Works(served) + QueuedWork(work, q) && Records(served) == Filter(log, u)
  {
  }

  /** By then each accepted request has its one posted record, in order, or was never started. */
  lemma StopAccounts(s: State, u: nat)
    requires Reachable(s) && s.lane.Joining? && s.lane.joined == s.started && u < UNITS
    ensures |s.pool.queue| == |s.accepted| == |s.served| == UNITS
    ensures forall i :: 0 <= i < |s.pool.queue[u]| ==> s.pool.queue[u][i] < |s.pool.work|
    ensures s.accepted[u] == Works(s.served[u]) + QueuedWork(s.pool.work, s.pool.queue[u])
    ensures Records(s.served[u]) == Filter(s.log, u)
  {
    ReachableInv(s);
    AllGone(s);
    UnitDone(s.pool.work, s.pool.queue[u], u, s.worker[u], s.accepted[u], s.served[u], s.log);
  }

  // ----- Which requests it drops -----

  /** The worker has found its queue empty and will not look again once it sees the stop, or
      was never there. */
  predicate Leaving(w: Worker) {
    w == Empty || w == Absent
  }

  /** The requests a stop now would never start. */
  ghost function Dropped(s: State, u: nat): seq<Work>
    requires Shaped(s) && u < UNITS
  {
    assert ListOf(s.pool.owner, s.pool.queue[u], Queued(u));
    if Leaving(s.worker[u]) then QueuedWork(s.pool.work, s.pool.queue[u]) else []
  }

  /** A unit since the stop: a leaving worker takes nothing more, any other looks at its queue
      until it is empty. */
  ghost predicate UnitSince(w0: Worker, q0: seq<nat>, w: Worker, q: seq<nat>) {
    if Leaving(w0) then q == q0 && w in {w0, Exited} else w != Absent && (w == Empty || w == Exited ==> q == [])
  }

  ghost predicate Since(s: State, t: State) {
    && |s.worker| == |s.pool.queue| == |t.worker| == |t.pool.queue| == UNITS
    && t.stopping && (t.lane.Stopping? || t.lane.Joining?)
    && t.accepted == s.accepted && t.pool.work == s.pool.work
    && forall u :: 0 <= u < UNITS ==> UnitSince(s.worker[u], s.pool.queue[u], t.worker[u], t.pool.queue[u])
  }

  lemma WorkerSince(w0: Worker, q0: seq<nat>, s: State, step: Step)
    requires Shaped(s) && Enabled(s, step) && WorkerMove(step) && s.stopping
    requires UnitSince(w0, q0, s.worker[step.u], s.pool.queue[step.u])
    ensures var t := Apply(s, step);
            |t.worker| == |t.pool.queue| == UNITS && UnitSince(w0, q0, t.worker[step.u], t.pool.queue[step.u])
  {
  }

  lemma CloserSince(s: State, t: State, t': State, u: nat)
    requires Since(s, t) && u < UNITS && Closer(t, t', u)
    requires UnitSince(s.worker[u], s.pool.queue[u], t'.worker[u], t'.pool.queue[u])
    ensures Since(s, t')
  {
    forall v | 0 <= v < UNITS ensures UnitSince(s.worker[v], s.pool.queue[v], t'.worker[v], t'.pool.queue[v]) {
      assert UnitSince(s.worker[v], s.pool.queue[v], t.worker[v], t.pool.queue[v]);
    }
  }

  lemma StepSince(s: State, t: State, step: Step)
    requires Since(s, t) && Shaped(t) && Enabled(t, step) && step != Retire
    ensures Since(s, Apply(t, step))
  {
    if WorkerMove(step) {
      WorkerCloser(t, step);
      WorkerSince(s.worker[step.u], s.pool.queue[step.u], t, step);
      CloserSince(s, t, Apply(t, step), step.u);
    }
  }

  lemma {:induction false} RunSince(s: State, t: State, steps: seq<Step>)
    requires Since(s, t) && CanRun(t, steps) && Retire !in steps
    ensures Since(s, Exec(t, steps))
    decreases |steps|
  {
    if steps == [] {
    } else {
      StepSince(s, t, steps[0]);
      RunSince(s, Apply(t, steps[0]), steps[1..]);
    }
  }

  lemma StopRuns(s: State, steps: seq<Step>)
    requires Reachable(s) && Shaped(s) && Enabled(s, Stop)
    requires CanRun(Apply(s, Stop), steps) && Retire !in steps
    ensures var t := Exec(Apply(s, Stop), steps); Since(s, t) && Inv(t)
  {
    ReachableInv(s);
    StopStep(s);
    RunInv(Apply(s, Stop), steps);
    assert Since(s, Apply(s, Stop)) by {
      forall u | 0 <= u < UNITS ensures UnitSince(s.worker[u], s.pool.queue[u], s.worker[u], s.pool.queue[u]) {
        assert UnitStops(u, s.started, s.worker[u], s.latch[u], s.stopping, s.lane);
      }
    }
    RunSince(s, Apply(s, Stop), steps);
  }

  lemma UnitDrops(s: State, t: State, u: nat)
    requires Since(s, t) && Shaped(s) && OrderOk(t.pool, t.worker, t.accepted, t.served, t.log) && u < UNITS
    requires t.worker[u] == Exited || t.worker[u] == Absent
    ensures t.accepted[u] == Works(t.served[u]) + Dropped(s, u) && Records(t.served[u]) == Filter(t.log, u)
  {
    assert UnitSince(s.worker[u], s.pool.queue[u], t.worker[u], t.pool.queue[u]);
    UnitDone(t.pool.work, t.pool.queue[u], u, t.worker[u], t.accepted[u], t.served[u], t.log);
  }

  /** What a stop drops is settled the moment it is called: the queues, as they stand, of the
      units whose worker is leaving. Everything else accepted by then is served. */
  lemma StopDrops(s: State, steps: seq<Step>, u: nat)
    requires Reachable(s) && Shaped(s) && Enabled(s, Stop) && u < UNITS
    requires CanRun(Apply(s, Stop), steps) && Retire !in steps
    requires var t := Exec(Apply(s, Stop), steps); t.lane == Joining(t.started)
    ensures var t := Exec(Apply(s, Stop), steps);
            && |t.accepted| == |t.served| == UNITS && t.accepted == s.accepted
            && t.accepted[u] == Works(t.served[u]) + Dropped(s, u) && Records(t.served[u]) == Filter(t.log, u)
  {
    var t := Exec(Apply(s, Stop), steps);
    StopRuns(s, steps);
    AllGone(t);
    UnitDrops(s, t, u);
  }

  /** So nothing is dropped exactly when, at the stop, no leaving worker has anything queued. */
  lemma NothingDropped(s: State, steps: seq<Step>)
    requires Reachable(s) && Shaped(s) && Enabled(s, Stop)
    requires CanRun(Apply(s, Stop), steps) && Retire !in steps
    requires var t := Exec(Apply(s, Stop), steps); t.lane == Joining(t.started)
    ensures var t := Exec(Apply(s, Stop), steps);
            && |t.accepted| == |t.served| == UNITS
            && ((forall u :: 0 <= u < UNITS ==> t.accepted[u] == Works(t.served[u])) <==>
                (forall u :: 0 <= u < UNITS && Leaving(s.worker[u]) ==> s.pool.queue[u] == []))
  {
    var t := Exec(Apply(s, Stop), steps);
    StopDrops(s, steps, 0);
    forall u | 0 <= u < UNITS
      ensures t.accepted[u] == Works(t.served[u]) <==> (Leaving(s.worker[u]) ==> s.pool.queue[u] == [])
    {
      StopDrops(s, steps, u);
    }
  }

  lemma RunCons(s: State, step: Step, rest: seq<Step>)
    requires Shaped(s) && Enabled(s, step) && CanRun(Apply(s, step), rest)
    ensures CanRun(s, [step] + rest) && Exec(s, [step] + rest) == Exec(Apply(s, step), rest)
  {
    assert ([step] + rest)[1..] == rest;
  }

  lemma RunThree(s: State, x: Step, a: State, y: Step, b: State, z: Step, c: State)
    requires Shaped(s) && Enabled(s, x) && a == Apply(s, x)
    requires Shaped(a) && Enabled(a, y) && b == Apply(a, y)
    requires Shaped(b) && Enabled(b, z) && c == Apply(b, z)
    ensures CanRun(s, [x, y, z]) && Exec(s, [x, y, z]) == c
  {
    RunCons(b, z, []);
    RunCons(a, y, [z]);
    RunCons(s, x, [y, z]);
  }

  lemma LateStop(s: State)
    requires Shaped(s) && s.started == 1 && s.worker[0] == Exited && s.lane == Stopping(0)
    ensures CanRun(s, [StopWake, Join, Join])
    ensures Exec(s, [StopWake, Join, Join]) == s.(latch := s.latch[0 := true], lane := Joining(1))
  {
    var a := Apply(s, StopWake);
    var b := Apply(a, Join);
    RunThree(s, StopWake, a, Join, b, Join, Apply(b, Join));
  }

  lemma LateCheck(s: State, steps: seq<Step>)
    requires Shaped(s) && s.started == 1 && s.worker[0] == Empty && s.lane == Stopping(0) && s.stopping
    requires steps == [Check(0), StopWake, Join, Join]
    ensures CanRun(s, steps) && Retire !in steps && Exec(s, steps).lane == Joining(Exec(s, steps).started)
  {
    LateStop(Apply(s, Check(0)));
    RunCons(s, Check(0), [StopWake, Join, Join]);
  }

  /** One request waits on the queue of a worker that has already looked. */
  ghost predicate Late(s: State, w: Work) {
    && Shaped(s) && s.lane == Idle && s.started == 1 && s.worker[0] == Empty
    && Dropped(s, 0) == [w] && s.accepted[0] == [w]
  }

  lemma LateQueue(s: State, w: Work)
    requires Inv(s) && s.lane == Submitted(0) && s.started == 1 && s.worker[0] == Empty
    requires s.accepted[0] == [w] && s.served[0] == []
    ensures Shaped(s) && Late(DoWake(s), w)
  {
    InvShaped(s);
    WakeStep(s);
    InvShaped(DoWake(s));
    assert UnitOrder(s.pool.work, s.pool.queue[0], 0, s.worker[0], s.accepted[0], s.served[0], s.log);
  }

  lemma LatePop(s: State)
    requires Init(s)
    ensures Shaped(s) && Enabled(s, Pop(0)) && Apply(s, Pop(0)) == SetWorker(s, 0, Empty)
    ensures Inv(SetWorker(s, 0, Empty))
  {
    InitInv(s);
    InvShaped(s);
    PopStep(s, 0);
  }

  /** A submission after the worker last looked at its queue. */
  lemma LateSubmit(s: State, a: State, w: Work)
    requires Init(s) && s.started == 1 && a == SetWorker(s, 0, Empty) && Inv(a) && w.unit == 0 && w.tag < DEPTH
    ensures Shaped(a) && Enabled(a, Submit(w)) && Apply(a, Submit(w)) == DoSubmit(a, w)
    ensures Shaped(DoSubmit(a, w)) && DoSubmit(a, w).lane == Submitted(0) && Late(DoWake(DoSubmit(a, w)), w)
  {
    InvShaped(a);
    SubmitStep(a, w);
    LateQueue(DoSubmit(a, w), w);
  }

  lemma LateRun(s: State, w: Work)
    requires Init(s) && s.started == 1 && w.unit == 0 && w.tag < DEPTH
    ensures CanRun(s, [Pop(0), Submit(w), Wake]) && Late(Exec(s, [Pop(0), Submit(w), Wake]), w)
  {
    var a := SetWorker(s, 0, Empty);
    LatePop(s);
    LateSubmit(s, a, w);
    var b := DoSubmit(a, w);
    RunThree(s, Pop(0), a, Submit(w), b, Wake, DoWake(b));
  }

  ghost predicate Unserved(t: State, w: Work) {
    t.lane == Joining(t.started) && |t.accepted| == |t.served| == UNITS && t.accepted[0] == [w] && t.served[0] == []
  }

  lemma LateDrops(a: State, w: Work, steps: seq<Step>)
    requires Late(a, w) && Reachable(a) && CanRun(Apply(a, Stop), steps) && Retire !in steps
    requires var t := Exec(Apply(a, Stop), steps); t.lane == Joining(t.started)
    ensures Unserved(Exec(Apply(a, Stop), steps), w)
  {
    var t := Exec(Apply(a, Stop), steps);
    StopDrops(a, steps, 0);
    assert |Works(t.served[0]) + [w]| == |t.served[0]| + 1;
  }

  /** Such a drop does happen: a request accepted after its worker last looked at the queue and
      before a stop is never started. */
  lemma DiscardedUnstarted(s: State, w: Work)
    requires Init(s) && s.started == 1 && w.unit == 0 && w.tag < DEPTH
    ensures var (first, rest) := ([Pop(0), Submit(w), Wake], [Check(0), StopWake, Join, Join]);
            && CanRun(s, first) && Late(Exec(s, first), w)
            && CanRun(Apply(Exec(s, first), Stop), rest) && Unserved(Exec(Apply(Exec(s, first), Stop), rest), w)
  {
    LateRun(s, w);
    var (a, rest) := (Exec(s, [Pop(0), Submit(w), Wake]), [Check(0), StopWake, Join, Join]);
    assert Reachable(a);
    LateCheck(Apply(a, Stop), rest);
    LateDrops(a, w, rest);
  }
}
