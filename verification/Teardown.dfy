/** The lifetime of guest RAM: runs that begin, build and end while user processes map it. */
module Teardown {

  /** A user mapping: the run it was made in and the blocks it shows. */
  datatype Mapping = Mapping(run: nat, blocks: seq<nat>)

  /** Where the loader stands: between calls, waiting in begin, allocating in begin, or in build_ram. */
  datatype Phase = Idle | Waiting(polls: nat) | Starting | Building

  /** Blocks are named by the order they were allocated in, over all runs. The last four fields
      record what happened and are not read by the code. */
  datatype State = State(
    blocks: seq<nat>, tables: bool, space: bool, ready: bool, maps: nat, pending: bool, phase: Phase,
    run: nat, made: nat, released: seq<nat>, holders: map<nat, Mapping>)

  const POLLS: nat := 200   // ten seconds in steps of fifty milliseconds

  datatype Step =
    | Free
    | TryGet(holder: nat)
    | Put(holder: nat)
    | Begin
    | Poll
    | Tables
    | Alloc
    | Abandon                  // begin refused: bad parameters or no translation arrays
    | FailBegin                // begin failed after allocating
    | Begun
    | Build(ok: bool)          // build_ram entered; ok is its parameter test
    | Built(ok: bool)

  ghost predicate Init(s: State) {
    s == State([], false, false, false, 0, false, Idle, 0, 0, [], map[])
  }

  function ReleasePages(s: State): State {
    s.(blocks := [], tables := false, ready := false, released := s.released + s.blocks)
  }

  function FreeAll(s: State): State {
    if !s.space && s.blocks == [] && !s.tables then s.(ready := false)
    else if s.maps != 0 then s.(ready := false, space := false, pending := true)
    else ReleasePages(s.(space := false))
  }

  predicate Mappable(s: State) {
    s.ready && !s.pending && s.blocks != []
  }

  function Get(s: State, h: nat): State {
    if Mappable(s) then s.(maps := s.maps + 1, holders := s.holders[h := Mapping(s.run, s.blocks)]) else s
  }

  function PutBack(s: State, h: nat): State {
    var s1 := s.(maps := if s.maps > 0 then s.maps - 1 else 0, holders := s.holders - {h});
    if s1.maps == 0 && s1.pending then ReleasePages(s1).(pending := false) else s1
  }

  function PollOnce(s: State): State
    requires s.phase.Waiting?
  {
    if !s.pending then s.(phase := Starting, run := s.run + 1)
    else s.(phase := if s.phase.polls + 1 < POLLS then Waiting(s.phase.polls + 1) else Idle)
  }

  /** Frees, begins and builds do not overlap; a mapping is put back by its holder, and a put
      with nothing mapped is harmless. */
  predicate Enabled(s: State, step: Step) {
    match step
    case Free => s.phase == Idle
    case TryGet(h) => h !in s.holders
    case Put(h) => h in s.holders || s.maps == 0
    case Begin => s.phase == Idle
    case Poll => s.phase.Waiting?
    case Tables => s.phase == Starting && !s.tables
    case Alloc => (s.phase == Starting && s.tables) || s.phase == Building
    case Abandon => s.phase == Starting && !s.tables
    case FailBegin => s.phase == Starting
    case Begun => s.phase == Starting && s.blocks != []
    case Build(_) => s.phase == Idle
    case Built(_) => s.phase == Building
  }

  function Apply(s: State, step: Step): State
    requires Enabled(s, step)
  {
    match step
    case Free => FreeAll(s)
    case TryGet(h) => Get(s, h)
    case Put(h) => PutBack(s, h)
    case Begin => FreeAll(s).(phase := Waiting(0))
    case Poll => PollOnce(s)
    case Tables => s.(tables := true)
    case Alloc => s.(blocks := s.blocks + [s.made], made := s.made + 1)
    case Abandon => s.(phase := Idle)
    case FailBegin => ReleasePages(s).(phase := Idle)
    case Begun => s.(space := true, phase := Idle)
    case Build(ok) => s.(ready := false, phase := if s.space && s.blocks != [] && ok then Building else Idle)
    case Built(ok) => s.(ready := ok, phase := Idle)
  }

  // ----- The invariant -----

  function Upto(n: nat): (s: seq<nat>)
    ensures |s| == n && forall i :: 0 <= i < n ==> s[i] == i
  {
    seq(n, i => i)
  }

  /** What a mapping shows is still there, and of this run. */
  ghost predicate Shows(m: Mapping, run: nat, blocks: seq<nat>) {
    m.run == run && m.blocks <= blocks
  }

  ghost predicate HoldersOk(holders: map<nat, Mapping>, maps: nat, run: nat, blocks: seq<nat>) {
    maps == |holders| && forall h :: h in holders ==> Shows(holders[h], run, blocks)
  }

  ghost predicate Inv(s: State) {
    && s.released + s.blocks == Upto(s.made)
    && HoldersOk(s.holders, s.maps, s.run, s.blocks)
    && (s.pending ==> s.maps > 0 && !s.space && !s.ready)
    && (s.maps > 0 ==> s.blocks != [])
    && (s.ready ==> s.space)
    && (s.space ==> s.blocks != [])
    && (s.phase.Waiting? ==> !s.space && !s.ready && (s.maps > 0 ==> s.pending) && (!s.pending ==> s.blocks == []))
    && (s.phase == Starting ==> s.maps == 0 && !s.ready && !s.pending && !s.space)
    && (s.phase == Building ==> s.space && !s.ready)
  }

  lemma InvStep(s: State, step: Step)
    requires Inv(s) && Enabled(s, step)
    ensures Inv(Apply(s, step))
  {
    match step
    case Free => FreeKeeps(s);
    case Begin => FreeKeeps(s);
    case TryGet(h) => GetKeeps(s, h);
    case Put(h) => PutKeeps(s, h);
    case Alloc => AllocKeeps(s);
    case _ =>
  }

  lemma FreeKeeps(s: State)
    requires Inv(s) && s.phase == Idle
    ensures Inv(FreeAll(s)) && Inv(FreeAll(s).(phase := Waiting(0)))
  {
  }

  lemma GetKeeps(s: State, h: nat)
    requires Inv(s) && h !in s.holders
    ensures Inv(Get(s, h))
  {
  }

  lemma AllocKeeps(s: State)
    requires Inv(s) && ((s.phase == Starting && s.tables) || s.phase == Building)
    ensures Inv(s.(blocks := s.blocks + [s.made], made := s.made + 1))
  {
    assert s.released + s.blocks + [s.made] == Upto(s.made + 1);
    forall h | h in s.holders ensures Shows(s.holders[h], s.run, s.blocks + [s.made]) {
      assert Shows(s.holders[h], s.run, s.blocks);
    }
  }

  lemma PutKeeps(s: State, h: nat)
    requires Inv(s) && (h in s.holders || s.maps == 0)
    ensures Inv(PutBack(s, h))
  {
    if h in s.holders {
      assert s.holders.Keys == (s.holders - {h}).Keys + {h};
      assert |s.holders.Keys| == |s.holders|;
    } else {
      assert s.holders - {h} == s.holders;
    }
  }

  // ----- Whole runs -----

  ghost predicate CanRun(s: State, steps: seq<Step>)
    decreases |steps|
  {
    steps == [] || (Enabled(s, steps[0]) && CanRun(Apply(s, steps[0]), steps[1..]))
  }

  ghost function Exec(s: State, steps: seq<Step>): State
    requires CanRun(s, steps)
    decreases |steps|
  {
    if steps == [] then s else Exec(Apply(s, steps[0]), steps[1..])
  }

  lemma {:induction false} RunInv(s: State, steps: seq<Step>)
    requires Inv(s) && CanRun(s, steps)
    ensures Inv(Exec(s, steps))
    decreases |steps|
  {
    if steps == [] {
    } else {
      InvStep(s, steps[0]);
      RunInv(Apply(s, steps[0]), steps[1..]);
    }
  }

  lemma RunFromInit(s0: State, steps: seq<Step>)
    requires Init(s0) && CanRun(s0, steps)
    ensures Inv(Exec(s0, steps))
  {
    RunInv(s0, steps);
  }

  ghost predicate Distinct(s: seq<nat>) {
    forall i, j :: 0 <= i < j < |s| ==> s[i] != s[j]
  }

  lemma SplitUpto(a: seq<nat>, b: seq<nat>, n: nat)
    requires a + b == Upto(n)
    ensures Distinct(a) && forall x :: (x in a <==> 0 <= x < |a|) && (x in b <==> |a| <= x < n)
  {
    assert forall i :: 0 <= i < |a| ==> (a + b)[i] == a[i];
    assert forall j :: 0 <= j < |b| ==> (a + b)[|a| + j] == b[j];
    forall x | 0 <= x < |a| ensures x in a {
      assert a[x] == x;
    }
    forall x | |a| <= x < n ensures x in b {
      assert b[x - |a|] == x;
    }
  }

  /** Each block ever allocated is either held now or was released, and that exactly once. */
  lemma ReleasedOnce(s0: State, steps: seq<Step>)
    requires Init(s0) && CanRun(s0, steps)
    ensures var s := Exec(s0, steps);
            && Distinct(s.released) && Distinct(s.blocks)
            && (forall b :: 0 <= b < s.made <==> b in s.released || b in s.blocks)
            && (forall b :: b in s.released ==> b !in s.blocks)
  {
    RunFromInit(s0, steps);
    var s := Exec(s0, steps);
    SplitUpto(s.released, s.blocks, s.made);
    assert forall j :: 0 <= j < |s.blocks| ==> (s.released + s.blocks)[|s.released| + j] == s.blocks[j];
  }

  /** While a mapping is outstanding, whatever it shows has not been released; a deferred
      teardown always has a mapping to wait for; memory is only allocated while every
      mapping is of the current run, and at a run's beginning while there is none. */
  lemma NoReleaseUnderMapping(s0: State, steps: seq<Step>)
    requires Init(s0) && CanRun(s0, steps)
    ensures var s := Exec(s0, steps);
            && (forall h, b :: h in s.holders && b in s.holders[h].blocks ==> b in s.blocks && b !in s.released)
            && (s.pending ==> s.holders != map[])
            && (Enabled(s, Alloc) ==> forall h :: h in s.holders ==> s.holders[h].run == s.run)
            && (s.phase == Starting ==> s.holders == map[])
  {
    RunFromInit(s0, steps);
    ReleasedOnce(s0, steps);
    var s := Exec(s0, steps);
    forall h, b | h in s.holders && b in s.holders[h].blocks ensures b in s.blocks {
      assert Shows(s.holders[h], s.run, s.blocks);
    }
    assert |s.holders| == 0 ==> s.holders == map[];
  }

  /** A mapping lasts, over any steps, until its holder puts it back. */
  lemma {:induction false} MappingLasts(s: State, steps: seq<Step>, h: nat)
    requires Inv(s) && CanRun(s, steps) && h in s.holders && Put(h) !in steps
    ensures var t := Exec(s, steps);
            h in t.holders && t.holders[h] == s.holders[h] && t.run == s.run && t.holders[h].blocks <= t.blocks
    decreases |steps|
  {
    assert Shows(s.holders[h], s.run, s.blocks);
    if steps == [] {
    } else {
      InvStep(s, steps[0]);
      assert steps[0] != Put(h);
      MappingLasts(Apply(s, steps[0]), steps[1..], h);
    }
  }

  function Puts(hs: seq<nat>): seq<Step> {
    seq(|hs|, i requires 0 <= i < |hs| => Put(hs[i]))
  }

  ghost predicate Lists(hs: seq<nat>, holders: map<nat, Mapping>) {
    Distinct(hs) && forall h :: h in hs <==> h in holders
  }

  lemma ListsNext(hs: seq<nat>, holders: map<nat, Mapping>)
    requires hs != [] && Lists(hs, holders)
    ensures Lists(hs[1..], holders - {hs[0]}) && hs[0] in holders
    ensures hs[1..] == [] <==> holders - {hs[0]} == map[]
  {
    forall h ensures h in hs[1..] <==> h in holders - {hs[0]} {
      assert h in hs[1..] ==> h in hs;
    }
    if hs[1..] != [] {
      assert hs[1] in hs[1..] && hs[1] in holders - {hs[0]};
    }
  }

  lemma PutsNext(hs: seq<nat>)
    requires hs != []
    ensures Puts(hs)[0] == Put(hs[0]) && Puts(hs)[1..] == Puts(hs[1..])
  {
  }

  lemma {:induction false} PutsComplete(s: State, hs: seq<nat>)
    requires Inv(s) && !s.space && Lists(hs, s.holders)
    requires s.pending || (s.blocks == [] && hs == [])
    ensures CanRun(s, Puts(hs)) && Exec(s, Puts(hs)).blocks == [] && Exec(s, Puts(hs)).released == Upto(s.made)
    decreases |hs|
  {
    if hs == [] {
      assert s.holders == map[] && |s.holders| == 0 && Puts(hs) == [];
      assert s.released + s.blocks == s.released;
    } else {
      ListsNext(hs, s.holders);
      PutKeeps(s, hs[0]);
      PutsNext(hs);
      PutsComplete(PutBack(s, hs[0]), hs[1..]);
    }
  }

  /** A teardown completes with the last mapping: once every holder has put back, in any
      order, every block ever allocated has been released. */
  lemma FreeCompletes(s: State, hs: seq<nat>)
    requires Inv(s) && s.phase == Idle && Lists(hs, s.holders)
    ensures CanRun(s, [Free] + Puts(hs))
    ensures var t := Exec(s, [Free] + Puts(hs));
            t.blocks == [] && t.released == Upto(s.made)
  {
    var s1 := FreeAll(s);
    InvStep(s, Free);
    assert ([Free] + Puts(hs))[1..] == Puts(hs);
    assert hs != [] ==> hs[0] in s.holders && |s.holders| > 0;
    assert hs == [] ==> s.holders == map[];
    PutsComplete(s1, hs);
  }

  // ----- Mappings are granted -----

  /** Complete RAM that is not pending is mapped by whoever asks, however many have it already. */
  lemma Granted(s: State, h: nat)
    requires Inv(s) && s.ready && !s.pending && s.blocks != [] && h !in s.holders
    ensures Enabled(s, TryGet(h))
    ensures var t := Apply(s, TryGet(h));
            && t.holders == s.holders[h := Mapping(s.run, s.blocks)] && t.maps == |s.holders| + 1
            && t == s.(maps := t.maps, holders := t.holders)
  {
  }

  lemma RunOne(s: State, step: Step, rest: seq<Step>)
    requires Enabled(s, step) && CanRun(Apply(s, step), rest)
    ensures CanRun(s, [step] + rest) && Exec(s, [step] + rest) == Exec(Apply(s, step), rest)
  {
    assert ([step] + rest)[1..] == rest;
  }

  lemma {:induction false} RunOn(s: State, a: seq<Step>, b: seq<Step>)
    requires CanRun(s, a) && CanRun(Exec(s, a), b)
    ensures CanRun(s, a + b) && Exec(s, a + b) == Exec(Exec(s, a), b)
    decreases |a|
  {
    if a == [] {
      assert a + b == b;
    } else {
      RunOn(Apply(s, a[0]), a[1..], b);
      assert (a + b)[1..] == a[1..] + b;
    }
  }

  function Allocs(n: nat): seq<Step> {
    seq(n, i => Alloc)
  }

  function Fresh(from: nat, n: nat): (s: seq<nat>)
    ensures |s| == n && forall i :: 0 <= i < n ==> s[i] == from + i
  {
    seq(n, i => from + i)
  }

  lemma FreshMore(from: nat, n: nat, m: nat)
    ensures Fresh(from, n) + Fresh(from + n, m) == Fresh(from, n + m)
  {
  }

  lemma {:induction false} AllocRuns(s: State, n: nat)
    requires (s.phase == Starting && s.tables) || s.phase == Building
    ensures CanRun(s, Allocs(n))
    ensures Exec(s, Allocs(n)) == s.(blocks := s.blocks + Fresh(s.made, n), made := s.made + n)
    decreases n
  {
    if n == 0 {
      assert s.blocks + Fresh(s.made, 0) == s.blocks;
    } else {
      var a := Apply(s, Alloc);
      AllocRuns(a, n - 1);
      RunOne(s, Alloc, Allocs(n - 1));
      assert Allocs(n) == [Alloc] + Allocs(n - 1);
      assert a.blocks + Fresh(a.made, n - 1) == s.blocks + Fresh(s.made, n);
    }
  }

  /** A whole run's beginning: begin finds nothing mapped, allocates n blocks, build_ram m more. */
  function BeginSteps(n: nat): seq<Step> {
    [Begin, Poll, Tables] + (Allocs(n) + [Begun])
  }

  function BuildSteps(m: nat): seq<Step> {
    [Build(true)] + (Allocs(m) + [Built(true)])
  }

  lemma BeginRuns(s: State, n: nat)
    requires Inv(s) && s.phase == Idle && s.maps == 0 && n > 0
    ensures CanRun(s, BeginSteps(n))
    ensures var t := Exec(s, BeginSteps(n));
            && t.blocks == Fresh(s.made, n) && t.made == s.made + n && t.run == s.run + 1 && t.phase == Idle
            && t.space && t.tables && !t.ready && !t.pending
            && t.holders == map[] && t.released == s.released + s.blocks
  {
    var a := Apply(s, Begin);
    InvStep(s, Begin);
    var b := Apply(a, Poll);
    var c := Apply(b, Tables);
    AllocRuns(c, n);
    assert [] + Fresh(s.made, n) == Fresh(s.made, n);
    var d := Exec(c, Allocs(n));
    RunOne(d, Begun, []);
    RunOn(c, Allocs(n), [Begun]);
    RunOne(b, Tables, Allocs(n) + [Begun]);
    RunOne(a, Poll, [Tables] + (Allocs(n) + [Begun]));
    RunOne(s, Begin, [Poll] + ([Tables] + (Allocs(n) + [Begun])));
    assert BeginSteps(n) == [Begin] + ([Poll] + ([Tables] + (Allocs(n) + [Begun])));
  }

  lemma BuildRuns(s: State, m: nat)
    requires s.phase == Idle && s.space && s.blocks != []
    ensures CanRun(s, BuildSteps(m))
    ensures Exec(s, BuildSteps(m))
            == s.(blocks := s.blocks + Fresh(s.made, m), made := s.made + m, ready := true)
  {
    var a := Apply(s, Build(true));
    AllocRuns(a, m);
    RunOne(Exec(a, Allocs(m)), Built(true), []);
    RunOn(a, Allocs(m), [Built(true)]);
    RunOne(s, Build(true), Allocs(m) + [Built(true)]);
  }

  lemma BuiltIsMapped(s: State, m: nat, h: nat)
    requires Inv(s) && s.phase == Idle && s.space && s.blocks != [] && !s.pending && s.holders == map[]
    ensures CanRun(s, BuildSteps(m) + [TryGet(h)])
    ensures var t := Exec(s, BuildSteps(m) + [TryGet(h)]);
            && t.ready && t.released == s.released
            && t.holders == map[h := Mapping(s.run, s.blocks + Fresh(s.made, m))]
  {
    BuildRuns(s, m);
    var b := Exec(s, BuildSteps(m));
    RunInv(s, BuildSteps(m));
    Granted(b, h);
    RunOne(b, TryGet(h), []);
    RunOn(s, BuildSteps(m), [TryGet(h)]);
  }

  /** With nothing mapped, a run that begins with n blocks and builds m more releases what was
      there before, and ends with RAM that any number of holders can map, all of it. */
  lemma RamIsUsable(s: State, n: nat, m: nat, h: nat)
    requires Inv(s) && s.phase == Idle && s.maps == 0 && n > 0
    ensures CanRun(s, BeginSteps(n) + (BuildSteps(m) + [TryGet(h)]))
    ensures var t := Exec(s, BeginSteps(n) + (BuildSteps(m) + [TryGet(h)]));
            && t.ready && t.released == s.released + s.blocks
            && t.holders == map[h := Mapping(s.run + 1, Fresh(s.made, n + m))]
  {
    BeginRuns(s, n);
    var a := Exec(s, BeginSteps(n));
    RunInv(s, BeginSteps(n));
    BuiltIsMapped(a, m, h);
    FreshMore(s.made, n, m);
    RunOn(s, BeginSteps(n), BuildSteps(m) + [TryGet(h)]);
  }

  /** While a mapping is out, a begin gives up after two hundred polls, and not before. */
  lemma BeginGivesUp(s: State, k: nat)
    requires s.phase == Waiting(k) && k < 200 && s.pending
    ensures CanRun(s, Polls(200 - k)) && Exec(s, Polls(200 - k)) == s.(phase := Idle)
    ensures forall j: nat :: j < 200 - k ==> CanRun(s, Polls(j)) && Exec(s, Polls(j)) == s.(phase := Waiting(k + j))
  {
    forall j: nat | j <= 200 - k
      ensures CanRun(s, Polls(j)) && Exec(s, Polls(j)) == s.(phase := if j < 200 - k then Waiting(k + j) else Idle)
    {
      PollsRun(s, k, j);
    }
  }

  /** So a begin while a mapping is out is over, refused, after two hundred polls. */
  lemma BeginRefused(s: State)
    requires Inv(s) && s.phase == Idle && s.maps > 0
    ensures CanRun(s, [Begin] + Polls(200))
    ensures var t := Exec(s, [Begin] + Polls(200)); t == FreeAll(s) && t.phase == Idle && t.pending && !t.ready
    ensures CanRun(s, [Begin] + Polls(199)) && Exec(s, [Begin] + Polls(199)).phase.Waiting?
  {
    var a := Apply(s, Begin);
    BeginGivesUp(a, 0);
    RunOne(s, Begin, Polls(200));
    RunOne(s, Begin, Polls(199));
  }

  function Polls(n: nat): seq<Step> {
    seq(n, i => Poll)
  }

  lemma {:induction false} PollsRun(s: State, k: nat, j: nat)
    requires s.phase == Waiting(k) && k < 200 && s.pending && j <= 200 - k
    ensures CanRun(s, Polls(j)) && Exec(s, Polls(j)) == s.(phase := if j < 200 - k then Waiting(k + j) else Idle)
    decreases j
  {
    if j == 0 {
    } else {
      var a := Apply(s, Poll);
      if j > 1 {
        PollsRun(a, k + 1, j - 1);
      }
      RunOne(s, Poll, Polls(j - 1));
      assert Polls(j) == [Poll] + Polls(j - 1);
    }
  }

  // ----- The code -----

  datatype Slot = Vacant | Block(id: nat)

  class Ram {
    var entry: seq<Slot>
    var count: nat
    var tables: bool
    var space: bool
    var ready: bool
    var maps: nat
    var pending: bool
    ghost var state: State

    ghost predicate Valid()
      reads this
    {
      && count == |state.blocks| <= |entry|
      && (forall i :: 0 <= i < count ==> entry[i] == Block(state.blocks[i]))
      && tables == state.tables && space == state.space && ready == state.ready
      && maps == state.maps && pending == state.pending
      && Inv(state)
    }

    method Free()
      requires Valid() && state.phase == Idle
      modifies this
      ensures Valid() && state == FreeAll(old(state))
    {
      InvStep(state, Step.Free);
      ready := false;
      if !space && count == 0 && !tables {
        state := FreeAll(state);
        return;
      }
      space := false;
      if maps != 0 {
        pending := true;
        state := FreeAll(state);
        return;
      }
      Release(FreeAll(state));
    }

    /** The release shared by both ways a teardown ends. */
    method Release(ghost next: State)
      requires |state.blocks| == count <= |entry|
      requires forall i :: 0 <= i < count ==> entry[i] == Block(state.blocks[i])
      requires Inv(next) && next.blocks == [] && !next.tables && !next.ready
               && next.released == state.released + state.blocks
      requires next.space == space && next.maps == maps && next.pending == pending
      modifies this
      ensures Valid() && state == next
    {
      var released := ReleaseBlocks();
      state := next.(released := state.released + released);
    }

    /** Hands back every block once, clearing its slot first. */
    method ReleaseBlocks() returns (released: seq<nat>)
      requires |state.blocks| == count <= |entry|
      requires forall i :: 0 <= i < count ==> entry[i] == Block(state.blocks[i])
      modifies `entry, `count, `tables, `ready
      ensures released == state.blocks && count == 0 && !tables && !ready && |entry| == |old(entry)|
      ensures forall i :: 0 <= i < old(count) ==> entry[i] == Vacant
    {
      var n := count;
      count := 0;
      released := [];
      var i := 0;
      while i < n
        invariant count == 0 && i <= n <= |entry| && |entry| == |old(entry)| && released == state.blocks[..i]
        invariant forall j :: 0 <= j < i ==> entry[j] == Vacant
        invariant forall j :: i <= j < n ==> entry[j] == Block(state.blocks[j])
      {
        var b := entry[i];
        if b.Block? {
          entry := entry[i := Vacant];
          released := released + [b.id];
        }
        i := i + 1;
      }
      assert state.blocks[..n] == state.blocks;
      tables, ready := false, false;
    }

    method UserMapTryGet(ghost holder: nat) returns (got: bool)
      requires Valid() && holder !in state.holders
      modifies this
      ensures Valid() && state == Get(old(state), holder)
      ensures got <==> old(ready) && !old(pending) && old(count) != 0
      ensures maps == old(maps) + if got then 1 else 0
      ensures got ==> state.holders == old(state.holders)[holder := Mapping(old(state.run), old(state.blocks))]
      ensures !got ==> state == old(state)
    {
      InvStep(state, TryGet(holder));
      got := ready && !pending && count != 0;
      if got {
        maps := maps + 1;
      }
      state := Get(state, holder);
    }

    method UserMapPut(ghost holder: nat)
      requires Valid() && (holder in state.holders || state.maps == 0)
      modifies this
      ensures Valid() && state == PutBack(old(state), holder)
    {
      InvStep(state, Put(holder));
      if maps > 0 {
        maps := maps - 1;
      }
      if maps == 0 && pending {
        pending := false;
        Release(PutBack(state, holder));
      } else {
        state := PutBack(state, holder);
      }
    }
  }
}
