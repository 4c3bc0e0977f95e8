/** The asynchronous block protocol as a step system: the guest's processor (which
    submits, drains and finally stops the run), one worker per unit, and the
    completion ring in guest memory between them. A step is one section under a
    lock, or one access to memory the other side may touch. */
module CobdProtocol {
  import opened CobdPool
  import opened Words

  const SLOTS: nat := 128
  const DEPTH: nat := 16

  /** The word that holds an index finds the same slot, and steps as the index does. */
  lemma SlotOf(n: nat)
    ensures (n % WORD) % SLOTS == n % SLOTS && (n % WORD + 1) % WORD == (n + 1) % WORD
  {
    assert n == n / WORD * WORD + n % WORD;
  }

  lemma SlotsApart(i: nat, j: nat)
    requires i < j < i + SLOTS
    ensures i % SLOTS != j % SLOTS
  {
  }

  datatype Rec = Rec(unit: nat, tag: nat, result: nat)

  /** A transfer that ran, with what the device answered. */
  datatype Done = Done(work: Work, result: nat)

  /** Where a worker is in its loop, and the node it holds. */
  datatype Worker =
    | Absent
    | Popping
    | Empty                            // popped nothing, has not yet looked at `stopping`
    | Asleep
    | Holding(node: nat)
    | Finished(node: nat, result: nat) // transferred, wants the completion lock
    | Locked(node: nat, result: nat)
    | Written(node: nat, result: nat)  // record stored, head not yet advanced
    | Freeing(node: nat)
    | Exited

  /** What the guest's processor is doing; `at` counts records and never wraps. */
  datatype Lane =
    | Idle
    | Submitted(unit: nat)             // queued, wakeup not yet sent
    | Draining(head: nat, tail: nat, at: nat, end: nat)
    | Stopping(woken: nat)
    | Joining(joined: nat)
    | Stopped

  datatype State = State(
    started: nat,
    pool: Pool, worker: seq<Worker>, latch: seq<bool>, attached: bool, stopping: bool,
    slots: seq<Rec>, head: nat, tail: nat,
    lane: Lane, inFlight: seq<set<nat>>,
    // history: requests accepted and transfers run, per unit; records published,
    // of which `taken` are below the stored tail; records that ended a request
    accepted: seq<seq<Work>>, served: seq<seq<Done>>, log: seq<Rec>, taken: nat, ended: seq<Rec>)

  ghost predicate Init(s: State) {
    && 1 <= s.started <= UNITS
    && |s.pool.work| == NODES && s.pool == Fresh(s.pool.work)
    && s.worker == seq(UNITS, u => if u < s.started then Popping else Absent)
    && |s.latch| == UNITS && s.attached && !s.stopping
    && |s.slots| == SLOTS && s.head == s.tail == 0
    && s.lane == Idle && s.inFlight == [{}, {}, {}, {}]
    && s.accepted == [[], [], [], []] && s.served == [[], [], [], []]
    && s.log == [] && s.taken == 0 && s.ended == []
  }

  datatype Step =
    | Submit(w: Work) | Wake
    | Pop(u: nat) | Check(u: nat) | Rouse(u: nat) | Transfer(u: nat, result: nat)
    | Lock(u: nat) | WriteSlot(u: nat) | Publish(u: nat) | Free(u: nat)
    | DrainStart | DrainOne | DrainEnd
    | Stop | StopWake | Join | Retire

  predicate Sized(s: State) {
    && 1 <= s.started <= UNITS && |s.slots| == SLOTS
    && |s.worker| == |s.latch| == |s.inFlight| == |s.accepted| == |s.served| == UNITS
  }

  /** Lengths and index bounds, which make the steps below well defined. */
  ghost predicate Shaped(s: State) {
    && Sized(s)
    && |s.pool.work| == |s.pool.owner| == NODES && |s.pool.queue| == UNITS
    && ListOf(s.pool.owner, s.pool.free, Spare)
    && (forall u :: 0 <= u < UNITS ==> ListOf(s.pool.owner, s.pool.queue[u], Queued(u)))
    && (forall u :: 0 <= u < UNITS ==> HoldsNode(s.worker[u]) ==> s.worker[u].node < NODES)
  }

  predicate HoldsNode(w: Worker) {
    w.Holding? || w.Finished? || w.Locked? || w.Written? || w.Freeing?
  }

  predicate InRing(w: Worker) {
    w.Locked? || w.Written?
  }

  /** Which steps can happen. The guest never reuses the tag of a request in flight, and does
      nothing else while a submission or a drain is under way; a stop may find it in a drain,
      which is then never finished. */
  ghost predicate Enabled(s: State, step: Step)
    requires Sized(s)
  {
    match step
    case Submit(w) => s.lane == Idle && w.unit < UNITS && w.tag < DEPTH && w.tag !in s.inFlight[w.unit]
    case Wake => s.lane.Submitted? && s.lane.unit < UNITS
    case Pop(u) => u < UNITS && s.worker[u] == Popping
    case Check(u) => u < UNITS && s.worker[u] == Empty
    case Rouse(u) => u < UNITS && s.worker[u] == Asleep && s.latch[u]
    case Transfer(u, result) => u < UNITS && s.worker[u].Holding? && result <= 1
    case Lock(u) => u < UNITS && s.worker[u].Finished? && forall v :: 0 <= v < UNITS ==> !InRing(s.worker[v])
    case WriteSlot(u) => u < UNITS && s.worker[u].Locked?
    case Publish(u) => u < UNITS && s.worker[u].Written?
    case Free(u) => u < UNITS && s.worker[u].Freeing?
    case DrainStart => s.lane == Idle
    case DrainOne => s.lane.Draining? && s.lane.tail != s.lane.head
    case DrainEnd => s.lane.Draining? && s.lane.tail == s.lane.head
    case Stop => s.lane.Idle? || s.lane.Draining?
    case StopWake => s.lane.Stopping? && s.lane.woken < s.started
    case Join => (s.lane.Stopping? && s.lane.woken == s.started)
                 || (s.lane.Joining? && s.lane.joined < s.started && s.worker[s.lane.joined] == Exited)
    case Retire => s.lane.Joining? && s.lane.joined == s.started
  }

  /** The completion record for the node a worker has transferred. */
  function RecordOf(work: seq<Work>, w: Worker): Rec
    requires (w.Finished? || w.Locked? || w.Written?) && w.node < |work|
  {
    Rec(work[w.node].unit, work[w.node].tag, w.result)
  }

  function SetWorker(s: State, u: nat, w: Worker): State
    requires u < |s.worker|
  {
    s.(worker := s.worker[u := w])
  }

  function DoSubmit(s: State, w: Work): State
    requires |s.pool.queue| == |s.accepted| == |s.inFlight| == UNITS && w.unit < UNITS
    requires s.pool.free == [] || s.pool.free[0] < |s.pool.work| == |s.pool.owner|
  {
    if s.pool.free == [] then s   // busy: the guest keeps the request
    else s.(pool := Enqueue(s.pool, w), lane := Submitted(w.unit),
            accepted := s.accepted[w.unit := s.accepted[w.unit] + [w]],
            inFlight := s.inFlight[w.unit := s.inFlight[w.unit] + {w.tag}])
  }

  function DoWake(s: State): State
    requires s.lane.Submitted? && s.lane.unit < |s.latch|
  {
    s.(latch := s.latch[s.lane.unit := true], lane := Idle)
  }

  function DoPop(s: State, u: nat): State
    requires u < |s.worker| && u < |s.pool.queue|
    requires s.pool.queue[u] == [] || s.pool.queue[u][0] < |s.pool.owner|
  {
    if s.pool.queue[u] == [] then SetWorker(s, u, Empty)
    else SetWorker(s, u, Holding(s.pool.queue[u][0])).(pool := Dequeue(s.pool, u))
  }

  function DoCheck(s: State, u: nat): State
    requires u < |s.worker|
  {
    SetWorker(s, u, if s.stopping then Exited else Asleep)
  }

  function DoRouse(s: State, u: nat): State
    requires u < |s.worker| && u < |s.latch|
  {
    SetWorker(s, u, Popping).(latch := s.latch[u := false])
  }

  function DoTransfer(s: State, u: nat, result: nat): State
    requires u < |s.worker| && u < |s.served| && s.worker[u].Holding? && s.worker[u].node < |s.pool.work|
  {
    var w := s.worker[u];
    SetWorker(s, u, Finished(w.node, result))
    .(served := s.served[u := s.served[u] + [Done(s.pool.work[w.node], result)]])
  }

  /** The fullness test of the producer, on indices read under its lock. */
  function DoLock(s: State, u: nat): State
    requires u < |s.worker| && s.worker[u].Finished?
  {
    var w := s.worker[u];
    if !s.attached || Sub32(s.head, s.tail) >= SLOTS then SetWorker(s, u, Freeing(w.node))
    else SetWorker(s, u, Locked(w.node, w.result))
  }

  function DoWrite(s: State, u: nat): State
    requires u < |s.worker| && s.worker[u].Locked? && s.worker[u].node < |s.pool.work| && |s.slots| == SLOTS
  {
    var w := s.worker[u];
    SetWorker(s, u, Written(w.node, w.result)).(slots := s.slots[s.head % SLOTS := RecordOf(s.pool.work, w)])
  }

  function DoPublish(s: State, u: nat): State
    requires u < |s.worker| && s.worker[u].Written? && s.worker[u].node < |s.pool.work|
  {
    var w := s.worker[u];
    SetWorker(s, u, Freeing(w.node)).(head := (s.head + 1) % WORD, log := s.log + [RecordOf(s.pool.work, w)])
  }

  function DoFree(s: State, u: nat): State
    requires u < |s.worker| && s.worker[u].Freeing? && s.worker[u].node < |s.pool.owner|
  {
    SetWorker(s, u, Popping).(pool := Release(s.pool, s.worker[u].node))
  }

  /** The drain reads both indices once; a gap wider than the ring is resynchronised. */
  function DoDrainStart(s: State): State {
    if s.head == s.tail then s
    else if Sub32(s.head, s.tail) > SLOTS then s.(tail := s.head)
    else s.(lane := Draining(s.head, s.tail, s.taken, |s.log|))
  }

  /** One record: ended only if it names a started request of a real unit. */
  function DoDrainOne(s: State): State
    requires s.lane.Draining? && |s.slots| == SLOTS && |s.inFlight| == UNITS
  {
    var c := s.slots[s.lane.tail % SLOTS];
    var next := s.lane.(tail := (s.lane.tail + 1) % WORD, at := s.lane.at + 1);
    if c.unit < UNITS && c.tag < DEPTH && c.tag in s.inFlight[c.unit] then
      s.(lane := next, inFlight := s.inFlight[c.unit := s.inFlight[c.unit] - {c.tag}], ended := s.ended + [c])
    else
      s.(lane := next)
  }

  function DoDrainEnd(s: State): State
    requires s.lane.Draining?
  {
    s.(tail := s.lane.tail, taken := s.lane.at, lane := Idle)
  }

  function DoStop(s: State): State {
    s.(stopping := true, lane := Stopping(0))
  }

  function DoStopWake(s: State): State
    requires s.lane.Stopping? && s.lane.woken < |s.latch|
  {
    s.(latch := s.latch[s.lane.woken := true], lane := Stopping(s.lane.woken + 1))
  }

  function DoJoin(s: State): State
    requires s.lane.Stopping? || s.lane.Joining?
  {
    s.(lane := if s.lane.Stopping? then Joining(0) else Joining(s.lane.joined + 1))
  }

  /** The ring's address is forgotten and every list emptied for the next run. */
  function DoRetire(s: State): State {
    s.(attached := false, lane := Stopped, pool := s.pool.(free := [], queue := [[], [], [], []]))
  }

  function Apply(s: State, step: Step): State
    requires Shaped(s) && Enabled(s, step)
  {
    match step
    case Submit(w) => DoSubmit(s, w)
    case Wake => DoWake(s)
    case Pop(u) => DoPop(s, u)
    case Check(u) => DoCheck(s, u)
    case Rouse(u) => DoRouse(s, u)
    case Transfer(u, result) => DoTransfer(s, u, result)
    case Lock(u) => DoLock(s, u)
    case WriteSlot(u) => DoWrite(s, u)
    case Publish(u) => DoPublish(s, u)
    case Free(u) => DoFree(s, u)
    case DrainStart => DoDrainStart(s)
    case DrainOne => DoDrainOne(s)
    case DrainEnd => DoDrainEnd(s)
    case Stop => DoStop(s)
    case StopWake => DoStopWake(s)
    case Join => DoJoin(s)
    case Retire => DoRetire(s)
  }
}
