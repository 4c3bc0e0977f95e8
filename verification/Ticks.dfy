/** Ticks owed to the guest, taken from the host's monotonic clock by either of two callers. */
module Ticks {

  const HZ: nat := 1000
  const PER_TICK: nat := 10_000     // a second of 100 nanosecond units over HZ
  const WORD: nat := 0x1_0000_0000

  /** Whole ticks between two readings. */
  function Whole(from: nat, now: nat): nat {
    if now <= from then 0 else (now - from) / PER_TICK
  }

  /** Ticks due by a mark; none by one that has not been set. */
  function Due(mark: nat, now: nat): nat {
    if mark == 0 then 0 else Whole(mark, now)
  }

  /** The new mark and the ticks to deliver; a mark of zero has not been set. */
  function Take(mark: nat, now: nat): (r: (nat, nat)) {
    var from := if mark == 0 then now else mark;
    var n := Whole(from, now) % WORD;
    if n == 0 then (from, 0)
    else if n > HZ then (now, HZ)
    else (from + n * PER_TICK, n)
  }

  class TickSource {
    var lastMono: nat

    constructor ()
      ensures lastMono == 0
    {
      lastMono := 0;
    }

    /** Ticks since anyone last asked; with no page or handler yet, none and nothing changes. */
    method TakeTicks(ready: bool, now: nat) returns (n: nat)
      modifies this
      ensures ready ==> (lastMono, n) == Take(old(lastMono), now)
      ensures !ready ==> n == 0 && lastMono == old(lastMono)
      ensures n <= HZ
    {
      if !ready {
        return 0;
      }
      if lastMono == 0 {
        lastMono := now;
      }
      if now <= lastMono {
        return 0;
      }
      n := (now - lastMono) / PER_TICK % WORD;
      if n == 0 {
        return 0;
      }
      if n > HZ {
        n := HZ;
        lastMono := now - n * PER_TICK;
      }
      lastMono := lastMono + n * PER_TICK;
    }
  }

  // ----- Over a sequence of readings -----

  /** The mark, the ticks delivered, and the first and latest of the readings since the mark was
      set. */
  datatype State = State(mark: nat, total: nat, first: nat, latest: nat)

  /** A source that has not been read, as it is made. */
  function Unread(): State {
    State(0, 0, 0, 0)
  }

  function Start(now: nat): State {
    State(now, 0, now, now)
  }

  function Step(s: State, now: nat): State {
    var r := Take(s.mark, now);
    if s.mark == 0 then State(r.0, s.total + r.1, now, now)
    else State(r.0, s.total + r.1, s.first, if now > s.latest then now else s.latest)
  }

  /** The first reading sets the mark and delivers nothing; one of zero is as good as none. */
  lemma FirstReading(now: nat)
    ensures Step(Unread(), now) == Start(now) && Start(0) == Unread() && Take(0, now) == (now, 0)
  {
  }

  function Run(s: State, readings: seq<nat>): State
    decreases |readings|
  {
    if readings == [] then s else Run(Step(s, readings[0]), readings[1..])
  }

  /** Neither the clamp nor the narrowing to 32 bits bites at this reading. */
  predicate Calm(s: State, now: nat) {
    Due(s.mark, now) <= HZ
  }

  predicate AllCalm(s: State, readings: seq<nat>)
    decreases |readings|
  {
    readings == [] || (Calm(s, readings[0]) && AllCalm(Step(s, readings[0]), readings[1..]))
  }

  ghost predicate Inv(s: State) {
    0 < s.first <= s.mark <= s.latest && s.total * PER_TICK <= s.mark - s.first
  }

  /** Every tick is accounted for and less than one is due. */
  ghost predicate Exact(s: State) {
    Inv(s) && s.total * PER_TICK == s.mark - s.first && s.latest - s.mark < PER_TICK
  }

  /** A whole tick has been forgotten. */
  ghost predicate Forgot(s: State) {
    Inv(s) && (s.total + 1) * PER_TICK <= s.mark - s.first
  }

  /** A tick has been forgotten, or more are due than 32 bits can tell. */
  ghost predicate Behind(s: State) {
    Forgot(s) || (Inv(s) && s.latest - s.mark >= WORD * PER_TICK)
  }

  /** A clock that does not run backwards. */
  predicate Ordered(latest: nat, readings: seq<nat>)
    decreases |readings|
  {
    readings == [] || (readings[0] >= latest && Ordered(readings[0], readings[1..]))
  }

  /** Readings that find fewer than 2^32 ticks due. */
  predicate Close(s: State, readings: seq<nat>)
    decreases |readings|
  {
    readings == [] || (Due(s.mark, readings[0]) < WORD && Close(Step(s, readings[0]), readings[1..]))
  }

  function Elapsed(s: State): nat
    requires s.first <= s.latest
  {
    (s.latest - s.first) / PER_TICK
  }

  /** The parts of a step from a mark that is set. */
  lemma Parts(mark: nat, now: nat) returns (q: nat, n: nat, k: nat)
    requires mark > 0
    ensures q == Whole(mark, now) && n == q % WORD && q == k * WORD + n
    ensures now > mark ==> q * PER_TICK <= now - mark < q * PER_TICK + PER_TICK
    ensures Take(mark, now) == if n == 0 then (mark, 0) else if n > HZ then (now, HZ) else (mark + n * PER_TICK, n)
    ensures now <= mark ==> q == 0
  {
    q := Whole(mark, now);
    n, k := q % WORD, q / WORD;
  }

  lemma StepInv(s: State, now: nat)
    requires Inv(s)
    ensures Inv(Step(s, now))
  {
    var q, n, k := Parts(s.mark, now);
    assert k * WORD >= 0 && n <= q;
  }

  lemma StepExact(s: State, now: nat)
    requires Exact(s) && Calm(s, now)
    ensures Exact(Step(s, now))
  {
    var q, n, k := Parts(s.mark, now);
    assert n == q;
  }

  lemma StepFalls(s: State, now: nat)
    requires Exact(s) && !Calm(s, now)
    ensures Behind(Step(s, now)) && (Due(s.mark, now) < WORD ==> Forgot(Step(s, now)))
  {
    var q, n, k := Parts(s.mark, now);
    StepInv(s, now);
    if n <= HZ {
      assert k >= 1;
    }
  }

  lemma StepForgot(s: State, now: nat)
    requires Forgot(s)
    ensures Forgot(Step(s, now))
  {
    var q, n, k := Parts(s.mark, now);
    StepInv(s, now);
  }

  lemma StepBehind(s: State, now: nat)
    requires Behind(s) && now >= s.latest
    ensures Behind(Step(s, now))
  {
    if Forgot(s) {
      StepForgot(s, now);
    } else {
      var q, n, k := Parts(s.mark, now);
      StepInv(s, now);
      assert q >= WORD && k >= 1;
    }
  }

  lemma {:induction false} RunInv(s: State, readings: seq<nat>)
    requires Inv(s)
    ensures Inv(Run(s, readings)) && Run(s, readings).first == s.first
    decreases |readings|
  {
    if readings == [] {
    } else {
      StepInv(s, readings[0]);
      RunInv(Step(s, readings[0]), readings[1..]);
    }
  }

  lemma {:induction false} RunForgot(s: State, readings: seq<nat>)
    requires Forgot(s)
    ensures Forgot(Run(s, readings))
    decreases |readings|
  {
    if readings == [] {
    } else {
      StepForgot(s, readings[0]);
      RunForgot(Step(s, readings[0]), readings[1..]);
    }
  }

  lemma {:induction false} RunBehind(s: State, readings: seq<nat>)
    requires Behind(s) && Ordered(s.latest, readings)
    ensures Behind(Run(s, readings))
    decreases |readings|
  {
    if readings == [] {
    } else {
      StepBehind(s, readings[0]);
      RunBehind(Step(s, readings[0]), readings[1..]);
    }
  }

  lemma {:induction false} RunCalm(s: State, readings: seq<nat>)
    requires Exact(s) && AllCalm(s, readings)
    ensures Exact(Run(s, readings))
    decreases |readings|
  {
    if readings == [] {
    } else {
      StepExact(s, readings[0]);
      RunCalm(Step(s, readings[0]), readings[1..]);
    }
  }

  lemma {:induction false} RunUnsettled(s: State, readings: seq<nat>)
    requires Exact(s) && !AllCalm(s, readings)
    requires Ordered(s.latest, readings) || Close(s, readings)
    ensures Behind(Run(s, readings))
    decreases |readings|
  {
    var (now, rest) := (readings[0], readings[1..]);
    if Calm(s, now) {
      StepExact(s, now);
      RunUnsettled(Step(s, now), rest);
    } else {
      StepFalls(s, now);
      if Ordered(s.latest, readings) {
        RunBehind(Step(s, now), rest);
      } else {
        RunForgot(Step(s, now), rest);
      }
    }
  }

  lemma ExactCounts(s: State)
    requires Exact(s)
    ensures s.total == Elapsed(s)
  {
  }

  lemma BehindCounts(s: State)
    requires Behind(s)
    ensures s.total < Elapsed(s)
  {
    var d := s.latest - s.first;
    assert (s.total + 1) * PER_TICK <= d;
    assert d / PER_TICK * PER_TICK <= d < (d / PER_TICK + 1) * PER_TICK;
  }

  /** Fewer than 2^32 ticks due are delivered up to a second of them, and less than one is left. */
  lemma Delivers(mark: nat, now: nat)
    requires 0 < mark < now && (now - mark) / 10_000 < 0x1_0000_0000
    ensures var (r, due) := (Take(mark, now), (now - mark) / 10_000);
            r.1 == (if due < 1000 then due else 1000) && mark <= r.0 <= now < r.0 + 10_000
  {
  }

  /** More than that are narrowed to 32 bits first: 2^32 ticks due count as none. */
  lemma Narrowed(mark: nat, k: nat, n: nat)
    requires mark > 0 && n <= 1000
    ensures Take(mark, mark + (k * 0x1_0000_0000 + n) * 10_000) == (mark + n * 10_000, n)
  {
    var due := k * 0x1_0000_0000 + n;
    assert due * 10_000 / 10_000 == due;
    assert due % 0x1_0000_0000 == n;
  }

  /** From a source not yet read, over any readings by either caller: the mark is set once a reading
      is not zero, nothing is delivered by then, and no more ticks ever than time has passed. */
  lemma {:induction false} NeverAhead(readings: seq<nat>)
    ensures var s := Run(Unread(), readings);
            && s.first <= s.latest && s.total * PER_TICK <= s.latest - s.first
            && (s.mark == 0 <==> forall i :: 0 <= i < |readings| ==> readings[i] == 0)
            && (s.mark == 0 ==> s == Unread())
    decreases |readings|
  {
    if readings == [] {
    } else {
      var (now, rest) := (readings[0], readings[1..]);
      FirstReading(now);
      if now == 0 {
        NeverAhead(rest);
        assert forall i :: 0 <= i < |rest| ==> rest[i] == readings[i + 1];
        assert forall i :: 1 <= i < |readings| ==> readings[i] == rest[i - 1];
      } else {
        RunInv(Start(now), rest);
      }
    }
  }

  /** All of the time passed is delivered exactly when no reading finds more than a second's
      ticks due; once one has, the count never catches up. The clock may jump as it likes while
      fewer than 2^32 ticks are due, and any distance if it never runs backwards. */
  lemma {:induction false} ExactWhenCalm(readings: seq<nat>)
    requires Ordered(0, readings) || Close(Unread(), readings)
    ensures var s := Run(Unread(), readings);
            s.first <= s.latest && (s.total == Elapsed(s) <==> AllCalm(Unread(), readings))
    decreases |readings|
  {
    if readings == [] {
    } else {
      var (now, rest) := (readings[0], readings[1..]);
      FirstReading(now);
      if now == 0 {
        ExactWhenCalm(rest);
      } else {
        ExactFrom(now, rest);
      }
    }
  }

  lemma ExactFrom(first: nat, readings: seq<nat>)
    requires first > 0 && (Ordered(first, readings) || Close(Start(first), readings))
    ensures var s := Run(Start(first), readings);
            s.first <= s.latest && (s.total == Elapsed(s) <==> AllCalm(Start(first), readings))
  {
    var s := Run(Start(first), readings);
    RunInv(Start(first), readings);
    if AllCalm(Start(first), readings) {
      RunCalm(Start(first), readings);
      ExactCounts(s);
    } else {
      RunUnsettled(Start(first), readings);
      BehindCounts(s);
    }
  }
}
