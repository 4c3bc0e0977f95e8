/** The ring's calls as runs of the block protocol: posting a record and draining are what the
    protocol's steps come to when nobody acts between them. */
module CobdCalls {
  import opened CobdPool
  import opened CobdInvariants
  import opened CobdProtocol
  import opened CobdRing
  import opened CobdTheorems
  import opened CobdStop
  import opened Words

  // ----- Posting -----

  /** The state once a worker has posted its record: it has yet to free its node. */
  function Posted(s: State, u: nat, r: Rec, node: nat): State
    requires |s.slots| == SLOTS && u < |s.worker|
  {
    SetWorker(s, u, Freeing(node)).(slots := s.slots[s.head % SLOTS := r], head := (s.head + 1) % WORD,
        log := s.log + [r])
  }

  lemma PostSteps(s: State, u: nat, a: State, b: State, r: Rec)
    requires Shaped(s) && Enabled(s, Lock(u)) && s.attached && Sub32(s.head, s.tail) < SLOTS
    requires a == Apply(s, Lock(u)) && r == RecordOf(s.pool.work, s.worker[u])
    requires b == SetWorker(s, u, Written(s.worker[u].node, s.worker[u].result)).(slots := s.slots[s.head % SLOTS := r])
    ensures Shaped(a) && Enabled(a, WriteSlot(u)) && b == Apply(a, WriteSlot(u))
    ensures Shaped(b) && Enabled(b, Publish(u)) && Apply(b, Publish(u)) == Posted(s, u, r, s.worker[u].node)
  {
  }

  /** A completion call is the lock, write and publish steps: posted exactly when the ring is
      attached and has room, and else only the node is left to free. */
  lemma CompleteIsSteps(s: State, u: nat)
    requires Shaped(s) && Enabled(s, Lock(u))
    ensures var (r, node) := (RecordOf(s.pool.work, s.worker[u]), s.worker[u].node);
            if s.attached && Sub32(s.head, s.tail) < SLOTS then
              && CanRun(s, [Lock(u), WriteSlot(u), Publish(u)])
              && Exec(s, [Lock(u), WriteSlot(u), Publish(u)]) == Posted(s, u, r, node)
            else
              Apply(s, Lock(u)) == SetWorker(s, u, Freeing(node))
  {
    if s.attached && Sub32(s.head, s.tail) < SLOTS {
      var r := RecordOf(s.pool.work, s.worker[u]);
      var a := Apply(s, Lock(u));
      var b := SetWorker(s, u, Written(s.worker[u].node, s.worker[u].result)).(slots := s.slots[s.head % SLOTS := r]);
      PostSteps(s, u, a, b, r);
      RunThree(s, Lock(u), a, WriteSlot(u), b, Publish(u), Posted(s, u, r, s.worker[u].node));
    }
  }

  // ----- Draining -----

  function Ones(n: nat): seq<Step> {
    seq(n, i => DrainOne)
  }

  /** What a drain changes besides the lane. */
  ghost predicate Drains(s: State, t: State, recs: seq<Rec>, tail: nat)
    requires |s.inFlight| == UNITS
  {
    && t.lane == Idle && t.tail == tail && (t.ended, t.inFlight) == Reap(recs, s.inFlight, s.ended)
    && t == s.(lane := Idle, tail := tail, taken := t.taken, ended := t.ended, inFlight := t.inFlight)
  }

  lemma DrainsEnd(s: State)
    requires Shaped(s) && Enabled(s, DrainEnd)
    ensures CanRun(s, [DrainEnd]) && Drains(s, Exec(s, [DrainEnd]), [], s.lane.tail)
  {
    RunCons(s, DrainEnd, []);
  }

  lemma DrainsOne(s: State, a: State, t: State, rest: seq<Rec>, tail: nat)
    requires Shaped(s) && Enabled(s, DrainOne) && a == Apply(s, DrainOne) && Drains(a, t, rest, tail)
    ensures Drains(s, t, [s.slots[s.lane.tail % SLOTS]] + rest, tail)
  {
    ReapNext(s.slots[s.lane.tail % SLOTS], rest, s.inFlight, s.ended);
  }

  /** In a drain with n records to go. */
  ghost predicate ToGo(s: State, n: nat, head: nat) {
    Shaped(s) && s.lane.Draining? && s.lane.head == head < WORD && s.lane.tail < WORD && n == Sub32(head, s.lane.tail)
  }

  lemma DrainNext(s: State, n: nat, head: nat, a: State)
    requires ToGo(s, n, head) && n > 0 && a == DoDrainOne(s)
    ensures Enabled(s, DrainOne) && a == Apply(s, DrainOne) && ToGo(a, n - 1, head) && a.slots == s.slots
    ensures Window(s.slots, s.lane.tail, n) == [s.slots[s.lane.tail % SLOTS]] + Window(s.slots, a.lane.tail, n - 1)
  {
    Drained(s.slots, head, s.lane.tail);
  }

  lemma {:induction false} DrainRuns(s: State, n: nat, head: nat, steps: seq<Step>)
    requires ToGo(s, n, head) && steps == Ones(n) + [DrainEnd]
    ensures CanRun(s, steps) && Drains(s, Exec(s, steps), Window(s.slots, s.lane.tail, n), head)
    decreases n
  {
    if n == 0 {
      DrainsEnd(s);
      assert steps == [DrainEnd] && Window(s.slots, s.lane.tail, 0) == [];
    } else {
      var (a, rest) := (DoDrainOne(s), Ones(n - 1) + [DrainEnd]);
      DrainNext(s, n, head, a);
      DrainRuns(a, n - 1, head, rest);
      RunCons(s, DrainOne, rest);
      DrainsOne(s, a, Exec(a, rest), Window(s.slots, a.lane.tail, n - 1), head);
      assert steps == [DrainOne] + rest;
    }
  }

  /** What was ended before does not matter to what a drain ends. */
  lemma {:induction false} ReapBehind(recs: seq<Rec>, inFlight: seq<set<nat>>, before: seq<Rec>, acc: seq<Rec>)
    requires |inFlight| == UNITS
    ensures var (a, b) := (Reap(recs, inFlight, before + acc), Reap(recs, inFlight, acc));
            a.0 == before + b.0 && a.1 == b.1
    decreases |recs|
  {
    if recs == [] {
    } else {
      var c := recs[0];
      if Started(c, inFlight) {
        ReapBehind(recs[1..], inFlight[c.unit := inFlight[c.unit] - {c.tag}], before, acc + [c]);
        assert before + acc + [c] == before + (acc + [c]);
      } else {
        ReapBehind(recs[1..], inFlight, before, acc);
      }
    }
  }

  /** A drain call is one start, a step for each record waiting and one end; with nothing waiting
      the start alone, and so with a gap wider than the ring, which it only closes. */
  lemma DrainIsSteps(s: State, n: nat)
    requires Shaped(s) && s.lane == Idle && s.head < WORD && s.tail < WORD && n == Sub32(s.head, s.tail)
    ensures n == 0 ==> Apply(s, DrainStart) == s
    ensures n > SLOTS ==> Apply(s, DrainStart) == s.(tail := s.head)
    ensures 0 < n <= SLOTS ==>
              && CanRun(s, [DrainStart] + (Ones(n) + [DrainEnd]))
              && var (t, r) := (Exec(s, [DrainStart] + (Ones(n) + [DrainEnd])),
                                Reap(Window(s.slots, s.tail, n), s.inFlight, []));
                 t == s.(tail := s.head, taken := t.taken, ended := s.ended + r.0, inFlight := r.1)
  {
    if 0 < n <= SLOTS {
      var (a, rest) := (Apply(s, DrainStart), Ones(n) + [DrainEnd]);
      DrainRuns(a, n, s.head, rest);
      RunCons(s, DrainStart, rest);
      ReapBehind(Window(s.slots, s.tail, n), s.inFlight, s.ended, []);
      assert s.ended + [] == s.ended;
    }
  }

  // ----- A request is served -----

  /** Nothing of the unit's is under way, nothing is unread, and nobody is in the ring. */
  ghost predicate Quiet(s: State, u: nat) {
    && Inv(s) && s.lane == Idle && u < UNITS && s.worker[u] == Popping && s.pool.queue[u] == []
    && (forall v :: 0 <= v < UNITS ==> !InRing(s.worker[v])) && |s.ended| == |s.log|
  }

  /** What a unit's worker and the ring say of a request on its way. */
  ghost predicate OnWay(s: State, t: State, w: Work, n: nat) {
    && w.unit < UNITS && Sized(s) && Sized(t) && |t.pool.work| == NODES && n < NODES
    && Inv(t) && t.lane == Idle && t.pool.work[n] == w && t.log == s.log && t.ended == s.ended
    && t.accepted == s.accepted[w.unit := s.accepted[w.unit] + [w]]
    && (forall v :: 0 <= v < UNITS && v != w.unit ==> t.worker[v] == s.worker[v])
  }

  lemma Accepted(s: State, w: Work, a: State)
    requires Quiet(s, w.unit) && w.tag < DEPTH && w.tag !in s.inFlight[w.unit] && a == DoSubmit(s, w)
    ensures Shaped(s) && Enabled(s, Submit(w)) && a == Apply(s, Submit(w)) && Inv(a) && s.pool.free != []
    ensures var n := s.pool.free[0];
            && n < NODES && a.lane == Submitted(w.unit) && a.pool.queue[w.unit] == [n] && a.pool.work[n] == w
            && a == s.(pool := a.pool, lane := a.lane, accepted := a.accepted, inFlight := a.inFlight)
            && a.accepted == s.accepted[w.unit := s.accepted[w.unit] + [w]]
  {
    InvShaped(s);
    SubmitStep(s, w);
  }

  lemma Woken(s: State, w: Work, n: nat, a: State, b: State)
    requires Quiet(s, w.unit) && Inv(a) && a.lane == Submitted(w.unit) && b == DoWake(a)
    requires a == s.(pool := a.pool, lane := a.lane, accepted := a.accepted, inFlight := a.inFlight)
    requires n < NODES && a.pool.queue[w.unit] == [n] && a.pool.work[n] == w
    requires a.accepted == s.accepted[w.unit := s.accepted[w.unit] + [w]]
    ensures Shaped(a) && Enabled(a, Wake) && b == Apply(a, Wake) && OnWay(s, b, w, n)
    ensures b.worker[w.unit] == Popping && b.pool.queue[w.unit] == [n] && b.served == s.served
  {
    InvShaped(a);
    WakeStep(a);
  }

  lemma Picked(s: State, w: Work, n: nat, b: State, c: State)
    requires OnWay(s, b, w, n) && w.unit < UNITS && b.worker[w.unit] == Popping && b.pool.queue[w.unit] == [n]
    requires b.served == s.served && c == DoPop(b, w.unit)
    ensures Shaped(b) && Enabled(b, Pop(w.unit)) && c == Apply(b, Pop(w.unit))
    ensures OnWay(s, c, w, n) && c.worker[w.unit] == Holding(n) && c.served == s.served && c.tail == b.tail
  {
    InvShaped(b);
    PopStep(b, w.unit);
  }

  /** From the submission to the worker's hands. */
  lemma TakenUp(s: State, w: Work) returns (a: State, b: State, c: State, n: nat)
    requires Quiet(s, w.unit) && w.tag < DEPTH && w.tag !in s.inFlight[w.unit]
    ensures Goes(s, Submit(w), a) && Goes(a, Wake, b) && Goes(b, Pop(w.unit), c)
    ensures OnWay(s, c, w, n) && c.worker[w.unit] == Holding(n) && c.served == s.served
  {
    a := DoSubmit(s, w);
    Accepted(s, w, a);
    n := s.pool.free[0];
    b := DoWake(a);
    Woken(s, w, n, a, b);
    c := DoPop(b, w.unit);
    Picked(s, w, n, b, c);
  }

  lemma Transferred(s: State, w: Work, n: nat, c: State, result: nat, d: State)
    requires OnWay(s, c, w, n) && w.unit < UNITS && c.worker[w.unit] == Holding(n) && c.served == s.served
    requires result <= 1 && d == DoTransfer(c, w.unit, result)
    ensures Shaped(c) && Enabled(c, Transfer(w.unit, result)) && d == Apply(c, Transfer(w.unit, result))
    ensures OnWay(s, d, w, n) && d.worker[w.unit] == Finished(n, result)
    ensures d.served == s.served[w.unit := s.served[w.unit] + [Done(w, result)]]
  {
    InvShaped(c);
    TransferStep(c, w.unit, result);
  }

  lemma Free1(d: State, u: nat, n: nat, r: Rec, e: State, f: State)
    requires Inv(e) && u < UNITS && |d.slots| == SLOTS && u < |d.worker| && e == Posted(d, u, r, n) && n < NODES
    requires f == DoFree(e, u)
    ensures Shaped(e) && Enabled(e, Free(u)) && f == Apply(e, Free(u)) && Inv(f)
    ensures f.log == d.log + [r] && f.ended == d.ended && f.lane == d.lane && f.accepted == d.accepted
    ensures f.served == d.served
  {
    InvShaped(e);
    FreeStep(e, u);
  }

  lemma CanPost(s: State, w: Work, n: nat, d: State, result: nat)
    requires Quiet(s, w.unit) && OnWay(s, d, w, n) && d.worker[w.unit] == Finished(n, result)
    ensures Shaped(d) && Enabled(d, Lock(w.unit)) && d.attached && Sub32(d.head, d.tail) < SLOTS
    ensures RecordOf(d.pool.work, d.worker[w.unit]) == Rec(w.unit, w.tag, result)
  {
    InvShaped(d);
    Bounds(d);
    forall v | 0 <= v < UNITS ensures !InRing(d.worker[v]) {
      assert v != w.unit ==> d.worker[v] == s.worker[v];
    }
  }

  /** From there to the record in the ring and the node on the free list. */
  lemma Answered(s: State, w: Work, n: nat, d: State, result: nat) returns (a: State, b: State, e: State, f: State)
    requires Quiet(s, w.unit) && OnWay(s, d, w, n) && d.worker[w.unit] == Finished(n, result)
    ensures Goes(d, Lock(w.unit), a) && Goes(a, WriteSlot(w.unit), b) && Goes(b, Publish(w.unit), e)
    ensures Goes(e, Free(w.unit), f)
    ensures Inv(f) && f.lane == Idle && f.log == s.log + [Rec(w.unit, w.tag, result)] && f.ended == s.ended
    ensures f.accepted == d.accepted && f.served == d.served
  {
    var (u, r) := (w.unit, Rec(w.unit, w.tag, result));
    CanPost(s, w, n, d, result);
    a := Apply(d, Lock(u));
    b := SetWorker(d, u, Written(n, result)).(slots := d.slots[d.head % SLOTS := r]);
    e := Posted(d, u, r, n);
    f := DoFree(e, u);
    PostSteps(d, u, a, b, r);
    PostKeeps(d, u, a, b, e);
    Free1(d, u, n, r, e, f);
  }

  lemma PostKeeps(d: State, u: nat, a: State, b: State, e: State)
    requires Inv(d) && Goes(d, Lock(u), a) && Goes(a, WriteSlot(u), b) && Goes(b, Publish(u), e)
    ensures Inv(e)
  {
    InvStep(d, Lock(u));
    InvStep(a, WriteSlot(u));
    InvStep(b, Publish(u));
  }

  lemma DrainBegins(f: State, a: State)
    requires Inv(f) && f.lane == Idle && |f.log| == |f.ended| + 1 && a == DoDrainStart(f)
    ensures Shaped(f) && Enabled(f, DrainStart) && a == Apply(f, DrainStart) && Inv(a)
    ensures a == f.(lane := a.lane) && a.lane.Draining? && a.lane.at == |f.ended| && a.lane.end == |f.log|
    ensures a.lane.tail != a.lane.head && a.lane.head == |f.log| % WORD
  {
    InvShaped(f);
    DrainStartStep(f);
    One(|f.ended|, |f.log|);
  }

  lemma DrainReadsIt(a: State, b: State)
    requires Inv(a) && a.lane.Draining? && a.lane.tail != a.lane.head && |a.log| == a.lane.at + 1 == a.lane.end
    requires b == DoDrainOne(a) && a.lane.head == |a.log| % WORD
    ensures Shaped(a) && Enabled(a, DrainOne) && b == Apply(a, DrainOne) && Inv(b)
    ensures b.lane.Draining? && b.lane.tail == b.lane.head && b.ended == a.ended + [a.log[a.lane.at]]
    ensures b == a.(lane := b.lane, inFlight := b.inFlight, ended := b.ended)
  {
    InvShaped(a);
    DrainOneStep(a);
    SlotOf(a.lane.at);
  }

  /** And to the guest, which ends the request it answers. */
  lemma Ended(f: State) returns (g: State)
    requires Inv(f) && f.lane == Idle && |f.log| == |f.ended| + 1
    ensures CanRun(f, [DrainStart, DrainOne, DrainEnd]) && Exec(f, [DrainStart, DrainOne, DrainEnd]) == g
    ensures Inv(g) && g.lane == Idle && g.ended == f.ended + [f.log[|f.ended|]] && g.log == f.log
    ensures g.accepted == f.accepted && g.served == f.served
  {
    var a := DoDrainStart(f);
    DrainBegins(f, a);
    var b := DoDrainOne(a);
    DrainReadsIt(a, b);
    InvShaped(b);
    g := DoDrainEnd(b);
    DrainEndStep(b);
    RunThree(f, DrainStart, a, DrainOne, b, DrainEnd, g);
  }

  lemma One(p: nat, q: nat)
    requires q == p + 1
    ensures p % WORD != q % WORD
  {
  }

  function Serving(w: Work, result: nat): seq<Step> {
    var u := w.unit;
    [Submit(w), Wake, Pop(u)]
    + ([Transfer(u, result)] + ([Lock(u), WriteSlot(u), Publish(u)] + ([Free(u)] + [DrainStart, DrainOne, DrainEnd])))
  }

  /** One step follows another. */
  ghost predicate Goes(s: State, x: Step, t: State) {
    Shaped(s) && Enabled(s, x) && t == Apply(s, x)
  }

  /** A run that is known to end in e. */
  ghost predicate EndsIn(s: State, steps: seq<Step>, e: State) {
    CanRun(s, steps) && Exec(s, steps) == e
  }

  lemma OneBefore(s: State, x: Step, t: State, r: seq<Step>, e: State, steps: seq<Step>)
    requires Goes(s, x, t) && EndsIn(t, r, e) && steps == [x] + r
    ensures EndsIn(s, steps, e)
  {
    RunCons(s, x, r);
  }

  lemma ThreeBefore(s: State, x: Step, a: State, y: Step, b: State, z: Step, c: State, r: seq<Step>, e: State,
                    r2: seq<Step>, r1: seq<Step>, steps: seq<Step>)
    requires Goes(s, x, a) && Goes(a, y, b) && Goes(b, z, c) && EndsIn(c, r, e)
    requires r2 == [z] + r && r1 == [y] + r2 && steps == [x] + r1
    ensures EndsIn(s, steps, e)
  {
    OneBefore(b, z, c, r, e, r2);
    OneBefore(a, y, b, r2, e, r1);
    OneBefore(s, x, a, r1, e, steps);
  }

  lemma InThree<T>(x: T, y: T, z: T, r: seq<T>)
    ensures [x, y, z] + r == [x] + ([y] + ([z] + r))
  {
  }

  /** With nothing else of its unit's under way, a request is accepted, transferred once, posted and
      ended, with its own tag and the device's answer. */
  lemma RequestIsServed(s: State, w: Work, result: nat)
    requires Quiet(s, w.unit) && w.tag < 16 && w.tag !in s.inFlight[w.unit] && result <= 1
    ensures CanRun(s, Serving(w, result))
    ensures var t := Exec(s, Serving(w, result));
            && Inv(t) && t.lane == Idle && t.ended == s.ended + [Rec(w.unit, w.tag, result)] && t.ended == t.log
            && t.accepted == s.accepted[w.unit := s.accepted[w.unit] + [w]]
            && t.served == s.served[w.unit := s.served[w.unit] + [Done(w, result)]]
  {
    var u := w.unit;
    var a, b, c, n := TakenUp(s, w);
    var d := DoTransfer(c, u, result);
    Transferred(s, w, n, c, result, d);
    var a', b', e, f := Answered(s, w, n, d, result);
    assert s.log == s.ended by {
      assert s.ended == s.log[..|s.ended|];
    }
    var g := Ended(f);
    var drain := [DrainStart, DrainOne, DrainEnd];
    OneBefore(e, Free(u), f, drain, g, [Free(u)] + drain);
    var free := [Free(u)] + drain;
    var post := [Lock(u), WriteSlot(u), Publish(u)] + free;
    InThree(Lock(u), WriteSlot(u), Publish(u), free);
    ThreeBefore(d, Lock(u), a', WriteSlot(u), b', Publish(u), e, free, g, [Publish(u)] + free,
                [WriteSlot(u)] + ([Publish(u)] + free), post);
    var rest := [Transfer(u, result)] + post;
    OneBefore(c, Transfer(u, result), d, post, g, rest);
    InThree(Submit(w), Wake, Pop(u), rest);
    ThreeBefore(s, Submit(w), a, Wake, b, Pop(u), c, rest, g, [Pop(u)] + rest, [Wake] + ([Pop(u)] + rest),
                Serving(w, result));
  }
}
