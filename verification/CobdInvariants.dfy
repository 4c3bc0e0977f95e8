/** What every step of the block protocol keeps. */
module CobdInvariants {
  import opened CobdPool
  import opened CobdProtocol
  import opened Words
  import opened Counting

  // ----- Nodes: every node has one owner, and none is lost -----

  /** The node a unit's worker holds and the nodes on its queue are the unit's own. */
  ghost predicate UnitNodes(work: seq<Work>, owner: seq<Owner>, q: seq<nat>, u: nat, w: Worker) {
    && |work| == |owner|
    && (HoldsNode(w) ==> w.node < |work| && owner[w.node] == Held(u) && work[w.node].unit == u)
    && (forall i :: 0 <= i < |q| ==> q[i] < |work| && owner[q[i]] == Queued(u) && work[q[i]].unit == u)
  }

  ghost predicate NodesOk(p: Pool, worker: seq<Worker>) {
    && Separate(p) && |worker| == UNITS
    && (forall u :: 0 <= u < UNITS ==> UnitNodes(p.work, p.owner, p.queue[u], u, worker[u]))
    && |p.free| + InUse(p, worker) == NODES
  }

  function Holds(w: Worker): nat {
    if HoldsNode(w) then 1 else 0
  }

  /** Nodes queued or held. */
  function InUse(p: Pool, worker: seq<Worker>): nat
    requires |p.queue| == |worker| == UNITS
  {
    |p.queue[0]| + |p.queue[1]| + |p.queue[2]| + |p.queue[3]|
    + Holds(worker[0]) + Holds(worker[1]) + Holds(worker[2]) + Holds(worker[3])
  }

  // ----- Ring: the slots between tail and head hold the records published -----

  ghost predicate RingOk(slots: seq<Rec>, head: nat, tail: nat, log: seq<Rec>, taken: nat) {
    && |slots| == SLOTS && taken <= |log|
    && head == |log| % WORD && tail == taken % WORD
    && (forall i :: taken <= i < |log| ==> slots[i % SLOTS] == log[i])
  }

  /** At most one worker is inside the ring, and the record it has stored waits at the head. */
  ghost predicate ProducerOk(work: seq<Work>, worker: seq<Worker>, slots: seq<Rec>, log: seq<Rec>) {
    && |worker| == UNITS && |slots| == SLOTS
    && (forall u, v :: 0 <= u < v < UNITS ==> !(InRing(worker[u]) && InRing(worker[v])))
    && (forall u :: 0 <= u < UNITS && worker[u].Written? && worker[u].node < |work| ==>
          slots[|log| % SLOTS] == RecordOf(work, worker[u]))
  }

  /** The drain's private copies stand for real positions, and every record it has passed
      ended the request it names; a stop in mid-drain leaves the stored tail behind those. */
  ghost predicate LaneOk(lane: Lane, log: seq<Rec>, taken: nat, ended: seq<Rec>) {
    && (lane.Submitted? ==> lane.unit < UNITS)
    && (lane.Draining? ==>
          && |ended| == lane.at <= lane.end <= |log|
          && lane.head == lane.end % WORD && lane.tail == lane.at % WORD)
    && (lane.Idle? || lane.Submitted? ==> |ended| == taken)
    && taken <= |ended| <= |log| && ended == log[..|ended|]
  }

  // ----- Order: per unit, accepted = served ++ held ++ queued, and served = published ++ being posted -----

  function Filter(log: seq<Rec>, u: nat): seq<Rec> {
    if log == [] then []
    else Filter(log[..|log| - 1], u) + if log[|log| - 1].unit == u then [log[|log| - 1]] else []
  }

  function Works(d: seq<Done>): (r: seq<Work>)
    ensures |r| == |d| && forall i :: 0 <= i < |d| ==> r[i] == d[i].work
  {
    seq(|d|, i requires 0 <= i < |d| => d[i].work)
  }

  function Records(d: seq<Done>): (r: seq<Rec>)
    ensures |r| == |d| && forall i :: 0 <= i < |d| ==> r[i] == Rec(d[i].work.unit, d[i].work.tag, d[i].result)
  {
    seq(|d|, i requires 0 <= i < |d| => Rec(d[i].work.unit, d[i].work.tag, d[i].result))
  }

  ghost predicate InRange(work: seq<Work>, q: seq<nat>, w: Worker) {
    (HoldsNode(w) ==> w.node < |work|) && forall i :: 0 <= i < |q| ==> q[i] < |work|
  }

  function QueuedWork(work: seq<Work>, q: seq<nat>): (r: seq<Work>)
    requires forall i :: 0 <= i < |q| ==> q[i] < |work|
    ensures |r| == |q| && forall i :: 0 <= i < |q| ==> r[i] == work[q[i]]
  {
    seq(|q|, i requires 0 <= i < |q| => work[q[i]])
  }

  /** The request a worker is still transferring. */
  function HeldWork(work: seq<Work>, w: Worker): seq<Work>
    requires HoldsNode(w) ==> w.node < |work|
  {
    if w.Holding? then [work[w.node]] else []
  }

  /** The record a worker has yet to publish. */
  function Posting(work: seq<Work>, w: Worker): seq<Rec>
    requires HoldsNode(w) ==> w.node < |work|
  {
    if w.Finished? || w.Locked? || w.Written? then [RecordOf(work, w)] else []
  }

  ghost predicate UnitOrder(work: seq<Work>, q: seq<nat>, u: nat, w: Worker,
                            accepted: seq<Work>, served: seq<Done>, log: seq<Rec>)
  {
    && InRange(work, q, w)
    && accepted == Works(served) + HeldWork(work, w) + QueuedWork(work, q)
    && Records(served) == Filter(log, u) + Posting(work, w)
  }

  ghost predicate OrderOk(p: Pool, worker: seq<Worker>, accepted: seq<seq<Work>>, served: seq<seq<Done>>,
                          log: seq<Rec>)
  {
    && |worker| == |p.queue| == |accepted| == |served| == UNITS
    && (forall i :: 0 <= i < |log| ==> log[i].unit < UNITS)
    && (forall u :: 0 <= u < UNITS ==>
          UnitOrder(p.work, p.queue[u], u, worker[u], accepted[u], served[u], log))
  }

  // ----- Tags: a unit's unreaped requests have distinct tags, the ones in flight -----

  ghost function Tags(s: seq<Work>): set<nat> {
    set i | 0 <= i < |s| :: s[i].tag
  }

  ghost predicate TagsOk(open: seq<Work>, inFlight: set<nat>) {
    && (forall i, j :: 0 <= i < j < |open| ==> open[i].tag != open[j].tag)
    && (forall i :: 0 <= i < |open| ==> open[i].tag < DEPTH)
    && inFlight == Tags(open)
  }

  /** Requests of the unit beyond the ones the records of `log` answer. */
  function Open(accepted: seq<Work>, log: seq<Rec>, u: nat): seq<Work> {
    if |Filter(log, u)| <= |accepted| then accepted[|Filter(log, u)|..] else []
  }

  ghost predicate FlightOk(accepted: seq<seq<Work>>, inFlight: seq<set<nat>>, log: seq<Rec>, taken: nat, at: nat) {
    && |accepted| == |inFlight| == UNITS && taken <= at <= |log|
    && (forall u :: 0 <= u < UNITS ==> TagsOk(Open(accepted[u], log[..at], u), inFlight[u]))
    && (forall u :: 0 <= u < UNITS ==> |Open(accepted[u], log[..taken], u)| <= DEPTH)
  }

  // ----- Wakeups and stopping -----

  /** A worker past its last look at the queue has a wakeup coming for anything on it. */
  ghost predicate WakeOk(started: nat, worker: seq<Worker>, latch: seq<bool>, queue: seq<seq<nat>>, lane: Lane,
                         stopping: bool)
  {
    && 1 <= started <= UNITS && |worker| == |latch| == |queue| == UNITS
    && (forall u :: 0 <= u < UNITS ==> UnitAwake(u, worker[u], queue[u], latch[u], lane))
    && (forall u :: 0 <= u < UNITS ==> UnitStops(u, started, worker[u], latch[u], stopping, lane))
    && (stopping <==> lane.Stopping? || lane.Joining?)
    && (lane.Stopping? ==> lane.woken <= started)
    && (lane.Joining? ==> lane.joined <= started && forall u :: 0 <= u < lane.joined ==> worker[u] == Exited)
  }

  ghost predicate UnitAwake(u: nat, w: Worker, q: seq<nat>, latch: bool, lane: Lane) {
    (w == Empty || w == Asleep) && q != [] ==> latch || lane == Submitted(u)
  }

  ghost predicate UnitStops(u: nat, started: nat, w: Worker, latch: bool, stopping: bool, lane: Lane) {
    && (w == Absent <==> u >= started)
    && (w == Exited ==> stopping)
    && (w == Asleep && stopping ==> latch || (lane.Stopping? && lane.woken <= u))
  }

  /** The data: nodes, ring and order. */
  ghost predicate DataOk(s: State) {
    && NodesOk(s.pool, s.worker)
    && RingOk(s.slots, s.head, s.tail, s.log, s.taken)
    && ProducerOk(s.pool.work, s.worker, s.slots, s.log)
    && OrderOk(s.pool, s.worker, s.accepted, s.served, s.log)
  }

  /** The control: the guest's side, tags in flight and wakeups. */
  ghost predicate ControlOk(s: State) {
    && LaneOk(s.lane, s.log, s.taken, s.ended)
    && FlightOk(s.accepted, s.inFlight, s.log, s.taken, |s.ended|)
    && WakeOk(s.started, s.worker, s.latch, s.pool.queue, s.lane, s.stopping)
    && s.attached && s.lane != Stopped
  }

  ghost predicate Inv(s: State) {
    DataOk(s) && ControlOk(s)
  }

  lemma InvShaped(s: State)
    requires Inv(s)
    ensures Shaped(s)
  {
    forall u | 0 <= u < UNITS && HoldsNode(s.worker[u]) ensures s.worker[u].node < NODES {
      assert UnitNodes(s.pool.work, s.pool.owner, s.pool.queue[u], u, s.worker[u]);
    }
  }

  lemma InitNodes(work: seq<Work>, worker: seq<Worker>)
    requires |work| == NODES && |worker| == UNITS && forall u :: 0 <= u < UNITS ==> worker[u] in {Popping, Absent}
    ensures NodesOk(Fresh(work), worker)
  {
    FreshSeparate(work);
  }

  lemma InitOrder(p: Pool, worker: seq<Worker>)
    requires p.queue == [[], [], [], []] && |worker| == UNITS
    requires forall u :: 0 <= u < UNITS ==> worker[u] in {Popping, Absent}
    ensures OrderOk(p, worker, [[], [], [], []], [[], [], [], []], [])
  {
    forall u | 0 <= u < UNITS ensures UnitOrder(p.work, [], u, worker[u], [], [], []) {
      assert Works([]) == QueuedWork(p.work, []) == [] && Records([]) == [];
    }
  }

  lemma InitFlight()
    ensures FlightOk([[], [], [], []], [{}, {}, {}, {}], [], 0, 0)
  {
    assert Tags([]) == {};
    forall u | 0 <= u < UNITS ensures Open([], [][..0], u) == [] && TagsOk([], {}) {
    }
  }

  lemma InitWake(s: State)
    requires Init(s)
    ensures WakeOk(s.started, s.worker, s.latch, s.pool.queue, s.lane, s.stopping)
    ensures ProducerOk(s.pool.work, s.worker, s.slots, s.log)
  {
  }

  lemma InitInv(s: State)
    requires Init(s)
    ensures Inv(s)
  {
    InitNodes(s.pool.work, s.worker);
    InitOrder(s.pool, s.worker);
    InitFlight();
    InitWake(s);
  }

  // ----- Nodes -----

  lemma NodesSubmit(p: Pool, worker: seq<Worker>, w: Work)
    requires NodesOk(p, worker) && w.unit < UNITS && p.free != []
    ensures NodesOk(Enqueue(p, w), worker)
  {
    var p' := Enqueue(p, w);
    EnqueueKeepsSeparate(p, w);
    forall u | 0 <= u < UNITS ensures UnitNodes(p'.work, p'.owner, p'.queue[u], u, worker[u]) {
      assert UnitNodes(p.work, p.owner, p.queue[u], u, worker[u]);
    }
  }

  lemma NodesPop(p: Pool, worker: seq<Worker>, u: nat)
    requires NodesOk(p, worker) && u < UNITS && worker[u] == Popping && p.queue[u] != []
    ensures NodesOk(Dequeue(p, u), worker[u := Holding(p.queue[u][0])])
  {
    var p', worker' := Dequeue(p, u), worker[u := Holding(p.queue[u][0])];
    DequeueKeepsSeparate(p, u);
    forall v | 0 <= v < UNITS ensures UnitNodes(p'.work, p'.owner, p'.queue[v], v, worker'[v]) {
      assert UnitNodes(p.work, p.owner, p.queue[u], u, worker[u]);
      assert UnitNodes(p.work, p.owner, p.queue[v], v, worker[v]);
      assert ListOf(p.owner, p.queue[u], Queued(u));
    }
  }

  lemma NodesFree(p: Pool, worker: seq<Worker>, u: nat)
    requires NodesOk(p, worker) && u < UNITS && worker[u].Freeing? && worker[u].node < NODES
    ensures NodesOk(Release(p, worker[u].node), worker[u := Popping])
  {
    var p', worker' := Release(p, worker[u].node), worker[u := Popping];
    assert UnitNodes(p.work, p.owner, p.queue[u], u, worker[u]);
    ReleaseKeepsSeparate(p, worker[u].node);
    forall v | 0 <= v < UNITS ensures UnitNodes(p'.work, p'.owner, p'.queue[v], v, worker'[v]) {
      assert UnitNodes(p.work, p.owner, p.queue[v], v, worker[v]);
    }
  }

  /** A worker that keeps its node, or has none, can move on. */
  lemma NodesMove(p: Pool, worker: seq<Worker>, u: nat, w: Worker)
    requires NodesOk(p, worker) && u < UNITS
    requires HoldsNode(w) == HoldsNode(worker[u]) && (HoldsNode(w) ==> w.node == worker[u].node)
    ensures NodesOk(p, worker[u := w])
  {
    var worker' := worker[u := w];
    forall v | 0 <= v < UNITS ensures UnitNodes(p.work, p.owner, p.queue[v], v, worker'[v]) {
      assert UnitNodes(p.work, p.owner, p.queue[v], v, worker[v]);
    }
  }

  // ----- Order -----

  lemma FilterSnoc(log: seq<Rec>, r: Rec, u: nat)
    ensures Filter(log + [r], u) == Filter(log, u) + if r.unit == u then [r] else []
  {
    assert (log + [r])[..|log|] == log;
  }

  /** Overwriting a node that is neither held nor queued changes nothing for a unit. */
  lemma UnitOrderFrame(work: seq<Work>, q: seq<nat>, u: nat, w: Worker, accepted: seq<Work>, served: seq<Done>,
                       log: seq<Rec>, n: nat, k: Work)
    requires UnitOrder(work, q, u, w, accepted, served, log)
    requires n < |work| && n !in q && (HoldsNode(w) ==> w.node != n)
    ensures UnitOrder(work[n := k], q, u, w, accepted, served, log)
  {
    assert QueuedWork(work[n := k], q) == QueuedWork(work, q);
  }

  lemma UnitOrderAppend(work: seq<Work>, q: seq<nat>, u: nat, w: Worker, accepted: seq<Work>, served: seq<Done>,
                        log: seq<Rec>, n: nat)
    requires UnitOrder(work, q, u, w, accepted, served, log) && n < |work|
    ensures UnitOrder(work, q + [n], u, w, accepted + [work[n]], served, log)
  {
    assert QueuedWork(work, q + [n]) == QueuedWork(work, q) + [work[n]];
  }

  lemma OrderSubmit(p: Pool, worker: seq<Worker>, accepted: seq<seq<Work>>, served: seq<seq<Done>>, log: seq<Rec>,
                    w: Work)
    requires NodesOk(p, worker) && OrderOk(p, worker, accepted, served, log) && w.unit < UNITS && p.free != []
    ensures OrderOk(Enqueue(p, w), worker, accepted[w.unit := accepted[w.unit] + [w]], served, log)
  {
    var n, p' := p.free[0], Enqueue(p, w);
    forall u | 0 <= u < UNITS
      ensures UnitOrder(p'.work, p.queue[u], u, worker[u], accepted[u], served[u], log)
    {
      assert UnitNodes(p.work, p.owner, p.queue[u], u, worker[u]);
      UnitOrderFrame(p.work, p.queue[u], u, worker[u], accepted[u], served[u], log, n, w);
    }
    UnitOrderAppend(p'.work, p.queue[w.unit], w.unit, worker[w.unit], accepted[w.unit], served[w.unit], log, n);
  }

  lemma UnitOrderPop(work: seq<Work>, q: seq<nat>, u: nat, accepted: seq<Work>, served: seq<Done>, log: seq<Rec>)
    requires UnitOrder(work, q, u, Popping, accepted, served, log) && q != []
    ensures UnitOrder(work, q[1..], u, Holding(q[0]), accepted, served, log)
  {
    var k := QueuedWork(work, q);
    assert k == [k[0]] + QueuedWork(work, q[1..]);
  }

  lemma OrderPop(p: Pool, worker: seq<Worker>, accepted: seq<seq<Work>>, served: seq<seq<Done>>, log: seq<Rec>, u: nat)
    requires NodesOk(p, worker) && OrderOk(p, worker, accepted, served, log)
    requires u < UNITS && worker[u] == Popping && p.queue[u] != []
    ensures OrderOk(Dequeue(p, u), worker[u := Holding(p.queue[u][0])], accepted, served, log)
  {
    UnitOrderPop(p.work, p.queue[u], u, accepted[u], served[u], log);
  }

  lemma OrderTransfer(p: Pool, worker: seq<Worker>, accepted: seq<seq<Work>>, served: seq<seq<Done>>, log: seq<Rec>,
                      u: nat, result: nat)
    requires OrderOk(p, worker, accepted, served, log)
    requires u < UNITS && worker[u].Holding? && worker[u].node < |p.work|
    ensures OrderOk(p, worker[u := Finished(worker[u].node, result)], accepted,
                    served[u := served[u] + [Done(p.work[worker[u].node], result)]], log)
  {
    var d := Done(p.work[worker[u].node], result);
    assert UnitOrder(p.work, p.queue[u], u, worker[u], accepted[u], served[u], log);
    assert Works(served[u] + [d]) == Works(served[u]) + [d.work];
    assert Records(served[u] + [d]) == Records(served[u]) + [Rec(d.work.unit, d.work.tag, result)];
  }

  lemma UnitOrderPublish(work: seq<Work>, q: seq<nat>, u: nat, n: nat, result: nat, accepted: seq<Work>,
                         served: seq<Done>, log: seq<Rec>)
    requires n < |work| && work[n].unit == u
    requires UnitOrder(work, q, u, Written(n, result), accepted, served, log)
    ensures UnitOrder(work, q, u, Freeing(n), accepted, served, log + [RecordOf(work, Written(n, result))])
  {
    FilterSnoc(log, RecordOf(work, Written(n, result)), u);
  }

  lemma UnitOrderOther(work: seq<Work>, q: seq<nat>, u: nat, w: Worker, accepted: seq<Work>,
                       served: seq<Done>, log: seq<Rec>, r: Rec)
    requires UnitOrder(work, q, u, w, accepted, served, log) && r.unit != u
    ensures UnitOrder(work, q, u, w, accepted, served, log + [r])
  {
    FilterSnoc(log, r, u);
  }

  lemma OrderPublish(p: Pool, worker: seq<Worker>, accepted: seq<seq<Work>>, served: seq<seq<Done>>, log: seq<Rec>,
                     u: nat)
    requires OrderOk(p, worker, accepted, served, log)
    requires u < UNITS && worker[u].Written? && worker[u].node < |p.work| && p.work[worker[u].node].unit == u
    ensures OrderOk(p, worker[u := Freeing(worker[u].node)], accepted, served, log + [RecordOf(p.work, worker[u])])
  {
    var r, worker' := RecordOf(p.work, worker[u]), worker[u := Freeing(worker[u].node)];
    UnitOrderPublish(p.work, p.queue[u], u, worker[u].node, worker[u].result, accepted[u], served[u], log);
    forall v | 0 <= v < UNITS && v != u
      ensures UnitOrder(p.work, p.queue[v], v, worker'[v], accepted[v], served[v], log + [r])
    {
      UnitOrderOther(p.work, p.queue[v], v, worker[v], accepted[v], served[v], log, r);
    }
  }

  /** A worker that neither starts, finishes nor publishes a transfer can move on. */
  lemma OrderMove(p: Pool, worker: seq<Worker>, accepted: seq<seq<Work>>, served: seq<seq<Done>>, log: seq<Rec>,
                  u: nat, w: Worker)
    requires OrderOk(p, worker, accepted, served, log) && u < UNITS
    requires InRange(p.work, p.queue[u], worker[u]) && InRange(p.work, p.queue[u], w)
    requires HeldWork(p.work, w) == HeldWork(p.work, worker[u]) && Posting(p.work, w) == Posting(p.work, worker[u])
    ensures OrderOk(p, worker[u := w], accepted, served, log)
  {
    assert UnitOrder(p.work, p.queue[u], u, worker[u], accepted[u], served[u], log);
  }

  // ----- Ring -----

  /** Storing at the head disturbs no unread record while the ring has room. */
  lemma RingWrite(slots: seq<Rec>, head: nat, tail: nat, log: seq<Rec>, taken: nat, r: Rec)
    requires RingOk(slots, head, tail, log, taken) && |log| - taken < SLOTS
    ensures head % SLOTS == |log| % SLOTS
    ensures RingOk(slots[head % SLOTS := r], head, tail, log, taken)
  {
    SlotOf(|log|);
    forall i | taken <= i < |log| ensures slots[head % SLOTS := r][i % SLOTS] == log[i] {
      SlotsApart(i, |log|);
    }
  }

  lemma RingPublish(slots: seq<Rec>, head: nat, tail: nat, log: seq<Rec>, taken: nat, r: Rec)
    requires RingOk(slots, head, tail, log, taken) && slots[|log| % SLOTS] == r
    ensures RingOk(slots, (head + 1) % WORD, tail, log + [r], taken)
  {
    SlotOf(|log|);
  }

  lemma ProducerMove(work: seq<Work>, worker: seq<Worker>, slots: seq<Rec>, log: seq<Rec>, u: nat, w: Worker)
    requires ProducerOk(work, worker, slots, log) && u < UNITS && !InRing(w)
    ensures ProducerOk(work, worker[u := w], slots, log)
  {
  }

  lemma ProducerLock(work: seq<Work>, worker: seq<Worker>, slots: seq<Rec>, log: seq<Rec>, u: nat)
    requires ProducerOk(work, worker, slots, log) && u < UNITS && worker[u].Finished?
    requires forall v :: 0 <= v < UNITS ==> !InRing(worker[v])
    ensures ProducerOk(work, worker[u := Locked(worker[u].node, worker[u].result)], slots, log)
  {
  }

  lemma ProducerWrite(work: seq<Work>, worker: seq<Worker>, slots: seq<Rec>, log: seq<Rec>, u: nat)
    requires ProducerOk(work, worker, slots, log) && u < UNITS && worker[u].Locked? && worker[u].node < |work|
    ensures ProducerOk(work, worker[u := Written(worker[u].node, worker[u].result)],
                       slots[|log| % SLOTS := RecordOf(work, worker[u])], log)
  {
  }

  lemma ProducerPublish(work: seq<Work>, worker: seq<Worker>, slots: seq<Rec>, log: seq<Rec>, u: nat, r: Rec)
    requires ProducerOk(work, worker, slots, log) && u < UNITS && worker[u].Written?
    ensures ProducerOk(work, worker[u := Freeing(worker[u].node)], slots, log + [r])
  {
  }

  lemma ProducerSubmit(p: Pool, worker: seq<Worker>, slots: seq<Rec>, log: seq<Rec>, n: nat, k: Work)
    requires NodesOk(p, worker) && ProducerOk(p.work, worker, slots, log) && n < NODES && !p.owner[n].Held?
    ensures ProducerOk(p.work[n := k], worker, slots, log)
  {
    forall u | 0 <= u < UNITS && worker[u].Written? ensures worker[u].node != n {
      assert UnitNodes(p.work, p.owner, p.queue[u], u, worker[u]);
    }
  }

  // ----- Lane -----

  lemma LanePublish(lane: Lane, log: seq<Rec>, taken: nat, ended: seq<Rec>, r: Rec)
    requires LaneOk(lane, log, taken, ended)
    ensures LaneOk(lane, log + [r], taken, ended)
  {
    assert (log + [r])[..|ended|] == log[..|ended|];
  }

  lemma Behind(at: nat, end: nat)
    requires at <= end && at % WORD != end % WORD
    ensures at < end
  {
  }

  lemma LaneDrain(lane: Lane, log: seq<Rec>, taken: nat, ended: seq<Rec>)
    requires LaneOk(lane, log, taken, ended) && lane.Draining? && lane.at < lane.end
    ensures LaneOk(lane.(tail := (lane.tail + 1) % WORD, at := lane.at + 1), log, taken, ended + [log[lane.at]])
  {
    SlotOf(lane.at);
    assert log[..lane.at + 1] == log[..lane.at] + [log[lane.at]];
  }

  // ----- Flight -----

  lemma FilterPrefix(log: seq<Rec>, n: nat, u: nat)
    requires n <= |log|
    ensures Filter(log[..n], u) <= Filter(log, u)
    decreases |log|
  {
    if n < |log| {
      FilterPrefix(log[..|log| - 1], n, u);
      assert log[..|log| - 1][..n] == log[..n];
    } else {
      assert log[..n] == log;
    }
  }

  /** The record at `n` is the unit's next one. */
  lemma FilterAt(log: seq<Rec>, n: nat)
    requires n < |log|
    ensures var k := |Filter(log[..n], log[n].unit)|;
            k < |Filter(log, log[n].unit)| && Filter(log, log[n].unit)[k] == log[n]
  {
    var u := log[n].unit;
    assert log[..n + 1] == log[..n] + [log[n]];
    FilterSnoc(log[..n], log[n], u);
    FilterPrefix(log, n + 1, u);
  }

  /** Distinct tags below the queue depth: no more requests than tags. */
  lemma TagsBound(open: seq<Work>, inFlight: set<nat>)
    requires TagsOk(open, inFlight)
    ensures |open| <= DEPTH
  {
    TagsCount(open);
    SubsetCount(Tags(open), Below(DEPTH));
  }

  lemma TagsCount(open: seq<Work>)
    requires forall i, j :: 0 <= i < j < |open| ==> open[i].tag != open[j].tag
    ensures |Tags(open)| == |open|
  {
    if open == [] {
      assert Tags(open) == {};
    } else {
      var (init, last) := (open[..|open| - 1], open[|open| - 1]);
      TagsCount(init);
      assert Tags(open) == Tags(init) + {last.tag};
    }
  }

  /** A new request takes a tag that is not in flight. */
  lemma TagsAdd(open: seq<Work>, inFlight: set<nat>, w: Work)
    requires TagsOk(open, inFlight) && w.tag < DEPTH && w.tag !in inFlight
    ensures TagsOk(open + [w], inFlight + {w.tag})
  {
    forall i | 0 <= i < |open| ensures open[i].tag != w.tag {
      assert open[i].tag in Tags(open);
    }
    assert Tags(open + [w]) == Tags(open) + {w.tag} by {
      assert (open + [w])[|open|] == w;
      forall i | 0 <= i < |open| ensures open[i].tag in Tags(open + [w]) {
        assert (open + [w])[i] == open[i];
      }
    }
  }

  /** Ending the oldest request releases exactly its tag. */
  lemma TagsDrop(open: seq<Work>, inFlight: set<nat>)
    requires TagsOk(open, inFlight) && open != []
    ensures open[0].tag in inFlight && open[0].tag < DEPTH && TagsOk(open[1..], inFlight - {open[0].tag})
  {
    var t := open[0].tag;
    assert open[0].tag in Tags(open);
    assert Tags(open[1..]) == Tags(open) - {t} by {
      forall x | x in Tags(open) && x != t ensures x in Tags(open[1..]) {
        var i :| 0 <= i < |open| && open[i].tag == x;
        assert open[1..][i - 1].tag == x;
      }
    }
  }

  lemma FlightSubmit(accepted: seq<seq<Work>>, inFlight: seq<set<nat>>, log: seq<Rec>, taken: nat, w: Work)
    requires FlightOk(accepted, inFlight, log, taken, taken)
    requires w.unit < UNITS && w.tag < DEPTH && w.tag !in inFlight[w.unit]
    requires |Filter(log[..taken], w.unit)| <= |accepted[w.unit]|
    ensures FlightOk(accepted[w.unit := accepted[w.unit] + [w]], inFlight[w.unit := inFlight[w.unit] + {w.tag}],
                     log, taken, taken)
  {
    var u := w.unit;
    var open := Open(accepted[u], log[..taken], u);
    assert Open(accepted[u] + [w], log[..taken], u) == open + [w];
    TagsAdd(open, inFlight[u], w);
    TagsBound(open + [w], inFlight[u] + {w.tag});
  }

  lemma FlightPublish(accepted: seq<seq<Work>>, inFlight: seq<set<nat>>, log: seq<Rec>, taken: nat, at: nat, r: Rec)
    requires FlightOk(accepted, inFlight, log, taken, at)
    ensures FlightOk(accepted, inFlight, log + [r], taken, at)
  {
    assert (log + [r])[..at] == log[..at] && (log + [r])[..taken] == log[..taken];
  }

  /** The next record names the unit's oldest unreaped request. */
  lemma FlightDrain(accepted: seq<seq<Work>>, inFlight: seq<set<nat>>, log: seq<Rec>, taken: nat, at: nat)
    requires FlightOk(accepted, inFlight, log, taken, at) && at < |log| && log[at].unit < UNITS
    requires var k := |Filter(log[..at], log[at].unit)|;
             k < |accepted[log[at].unit]| && accepted[log[at].unit][k].tag == log[at].tag
    ensures log[at].tag < DEPTH && log[at].tag in inFlight[log[at].unit]
    ensures FlightOk(accepted, inFlight[log[at].unit := inFlight[log[at].unit] - {log[at].tag}], log, taken, at + 1)
  {
    var (u, r) := (log[at].unit, log[at]);
    assert log[..at + 1] == log[..at] + [r];
    forall v | 0 <= v < UNITS
      ensures Filter(log[..at + 1], v) == Filter(log[..at], v) + if v == u then [r] else []
    {
      FilterSnoc(log[..at], r, v);
    }
    var open := Open(accepted[u], log[..at], u);
    TagsDrop(open, inFlight[u]);
    assert Open(accepted[u], log[..at + 1], u) == open[1..];
  }

  lemma FlightStore(accepted: seq<seq<Work>>, inFlight: seq<set<nat>>, log: seq<Rec>, taken: nat, at: nat)
    requires FlightOk(accepted, inFlight, log, taken, at)
    ensures FlightOk(accepted, inFlight, log, at, at)
  {
    forall u | 0 <= u < UNITS ensures |Open(accepted[u], log[..at], u)| <= DEPTH {
      TagsBound(Open(accepted[u], log[..at], u), inFlight[u]);
    }
  }

  // ----- How much can be outstanding -----

  /** Requests of a unit that are not yet published. */
  function Pending(q: seq<nat>, w: Worker): nat {
    |q| + if HoldsNode(w) && !w.Freeing? then 1 else 0
  }

  lemma UnitLoad(p: Pool, u: nat, w: Worker, accepted: seq<Work>, served: seq<Done>, log: seq<Rec>, taken: nat)
    requires u < |p.queue| && UnitOrder(p.work, p.queue[u], u, w, accepted, served, log) && taken <= |log|
    requires |Open(accepted, log[..taken], u)| <= DEPTH
    ensures |Filter(log[..taken], u)| <= |Filter(log, u)| <= |accepted|
    ensures |Filter(log, u)| - |Filter(log[..taken], u)| + Pending(p.queue[u], w) <= DEPTH
  {
    FilterPrefix(log, taken, u);
  }

  lemma FilterSum(log: seq<Rec>)
    requires forall i :: 0 <= i < |log| ==> log[i].unit < UNITS
    ensures |Filter(log, 0)| + |Filter(log, 1)| + |Filter(log, 2)| + |Filter(log, 3)| == |log|
  {
  }

  /** Published but not reaped, plus accepted but not published: at most four units of sixteen. */
  lemma Load(s: State)
    requires Inv(s)
    ensures |s.log| - s.taken + Pending(s.pool.queue[0], s.worker[0]) + Pending(s.pool.queue[1], s.worker[1])
            + Pending(s.pool.queue[2], s.worker[2]) + Pending(s.pool.queue[3], s.worker[3]) <= UNITS * DEPTH
  {
    FilterSum(s.log);
    FilterSum(s.log[..s.taken]);
    forall u | 0 <= u < UNITS
      ensures |Filter(s.log, u)| - |Filter(s.log[..s.taken], u)| + Pending(s.pool.queue[u], s.worker[u]) <= DEPTH
    {
      UnitLoad(s.pool, u, s.worker[u], s.accepted[u], s.served[u], s.log, s.taken);
    }
  }

  lemma Bounds(s: State)
    requires Inv(s)
    ensures Sub32(s.head, s.tail) == |s.log| - s.taken <= UNITS * DEPTH
    ensures InUse(s.pool, s.worker) <= UNITS * DEPTH + UNITS
    ensures |s.pool.free| >= NODES - UNITS * DEPTH - UNITS
  {
    Load(s);
    Gap(|s.log| % WORD, |s.log|, s.taken % WORD, s.taken);
  }

  // ----- Wakeups -----

  lemma WakeMove(s: State, u: nat, w: Worker, q: seq<nat>)
    requires WakeOk(s.started, s.worker, s.latch, s.pool.queue, s.lane, s.stopping)
    requires u < UNITS && s.worker[u] != Absent && s.worker[u] != Exited && w !in {Absent, Empty, Asleep, Exited}
    ensures WakeOk(s.started, s.worker[u := w], s.latch, s.pool.queue[u := q], s.lane, s.stopping)
  {
  }

  lemma WakeEmpty(s: State, u: nat)
    requires WakeOk(s.started, s.worker, s.latch, s.pool.queue, s.lane, s.stopping)
    requires u < UNITS && s.worker[u] == Popping && s.pool.queue[u] == []
    ensures WakeOk(s.started, s.worker[u := Empty], s.latch, s.pool.queue, s.lane, s.stopping)
  {
  }

  lemma WakeCheck(s: State, u: nat)
    requires WakeOk(s.started, s.worker, s.latch, s.pool.queue, s.lane, s.stopping)
    requires u < UNITS && s.worker[u] == Empty
    ensures WakeOk(s.started, s.worker[u := if s.stopping then Exited else Asleep], s.latch, s.pool.queue, s.lane,
                   s.stopping)
  {
  }

  lemma WakeRouse(s: State, u: nat)
    requires WakeOk(s.started, s.worker, s.latch, s.pool.queue, s.lane, s.stopping)
    requires u < UNITS && s.worker[u] == Asleep
    ensures WakeOk(s.started, s.worker[u := Popping], s.latch[u := false], s.pool.queue, s.lane, s.stopping)
  {
  }

  lemma WakeLatch(s: State, u: nat, lane: Lane)
    requires WakeOk(s.started, s.worker, s.latch, s.pool.queue, s.lane, s.stopping) && u < UNITS
    requires (s.lane == Submitted(u) && lane == Idle)
             || (s.lane == Stopping(u) && u < s.started && lane == Stopping(u + 1))
    ensures WakeOk(s.started, s.worker, s.latch[u := true], s.pool.queue, lane, s.stopping)
  {
  }

  lemma WakeSubmit(s: State, u: nat, q: seq<nat>)
    requires WakeOk(s.started, s.worker, s.latch, s.pool.queue, s.lane, s.stopping) && u < UNITS && s.lane == Idle
    ensures WakeOk(s.started, s.worker, s.latch, s.pool.queue[u := q], Submitted(u), s.stopping)
  {
  }

  lemma WakeLane(s: State, lane: Lane)
    requires WakeOk(s.started, s.worker, s.latch, s.pool.queue, s.lane, s.stopping)
    requires s.lane.Idle? || s.lane.Draining?
    requires lane.Idle? || lane.Draining? || lane == Stopping(0)
    ensures WakeOk(s.started, s.worker, s.latch, s.pool.queue, lane, lane.Stopping?)
  {
  }

  lemma WakeJoin(s: State)
    requires WakeOk(s.started, s.worker, s.latch, s.pool.queue, s.lane, s.stopping)
    requires (s.lane.Stopping? && s.lane.woken == s.started)
             || (s.lane.Joining? && s.lane.joined < s.started && s.worker[s.lane.joined] == Exited)
    ensures WakeOk(s.started, s.worker, s.latch, s.pool.queue,
                   if s.lane.Stopping? then Joining(0) else Joining(s.lane.joined + 1), s.stopping)
  {
  }
}
