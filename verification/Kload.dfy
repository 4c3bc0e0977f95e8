/** Pseudo-physical memory: the forward array from pseudo to machine frames, its
    reverse hash, and growth of RAM block by block. */
module Kload {
  import opened Translation
  import opened BlockIndex
  import opened Sizes
  import W = Windows

  const CHUNK: nat := 0x200_0000
  const USER_BLOCK: nat := 0x80_0000
  const MAX_BLOCKS: nat := 16384
  const WINDOW_BYTES: nat := 0x4000_0000
  const ULONG_MAX: nat := 0xFFFF_FFFF

  datatype Rc = Ok | Error | InvalidParameter | OutOfMemory

  /** Where host memory comes from: cached pool, or a section view of so many bytes. */
  datatype Source = Pool | Section(bytes: nat)

  lemma WindowFits(capacity: nat, slots: nat)
    requires HashSlots(capacity, slots) && 8 * capacity <= WINDOW_BYTES
    ensures 4 * slots <= WINDOW_BYTES
  {
    SomePowers();
    PowerGap(slots, 0x1000_0000);
  }

  /** The smallest power of two that is large enough. Refused exactly for nothing or for more
      pages than the forward array's one-gigabyte window has entries; the hash always fits its
      own window then. */
  method TableSize(capacity: nat) returns (rc: Rc, slots: nat)
    ensures rc == if 0 < capacity && 8 * capacity <= 0x4000_0000 then Ok else InvalidParameter
    ensures rc == Ok ==> HashSlots(capacity, slots) && 4 * slots <= 0x4000_0000
    ensures rc == Ok ==> Power2(slots) && slots < 3 * capacity <= 2 * slots
  {
    slots := 1;
    if capacity == 0 || WantedSlots(capacity) > ULONG_MAX {
      return InvalidParameter, slots;
    }
    while slots < WantedSlots(capacity)
      invariant Power2(slots)
      invariant slots / 2 < WantedSlots(capacity)
    {
      if slots > ULONG_MAX / 2 {
        return InvalidParameter, slots;
      }
      slots := slots * 2;
    }
    if 8 * capacity > WINDOW_BYTES || 4 * slots > WINDOW_BYTES {
      if 8 * capacity <= WINDOW_BYTES {
        WindowFits(capacity, slots);
      }
      return InvalidParameter, slots;
    }
    rc := Ok;
  }

  function BlockBytes(source: Source, bytes: nat): nat {
    if source.Section? && bytes > USER_BLOCK then USER_BLOCK else bytes
  }

  /** Whether the loader's own limits allow the next block. */
  predicate Fits(source: Source, count: nat, capacity: nat, backed: nat, bytes: nat) {
    var b := BlockBytes(source, bytes);
    && count < MAX_BLOCKS && b / PAGE > 0 && backed + b / PAGE <= capacity
    && (source.Section? ==> backed * PAGE + b <= source.bytes)
  }

  /** The host never gives out a machine frame twice, nor frame zero; `frame` names the one
      behind each pseudo page. */
  ghost predicate HostFrames(frame: nat -> nat) {
    (forall i: nat, j: nat :: i < j ==> frame(i) != frame(j)) && forall i: nat :: frame(i) != 0
  }

  ghost predicate Backs(p2m: seq<nat>, backed: nat, frame: nat -> nat) {
    backed <= |p2m| && forall i: nat :: i < backed ==> p2m[i] == frame(i)
  }

  // ----- RAM and windows together -----

  /** The forward array with its arena, and how many pages are RAM. */
  datatype Memory = Memory(arena: W.Arena, backed: nat)

  /** RAM ends below the arena, nothing between is mapped, and the arena's windows are sound. */
  ghost predicate Calm(m: Memory) {
    && W.Sound(m.arena) && m.backed <= m.arena.base
    && forall k :: m.backed <= k < m.arena.base ==> m.arena.p2m[k] == 0
  }

  /** RAM has grown towards `end`, and nothing above it has changed. */
  ghost predicate Grown(frame: nat -> nat, m: Memory, end: nat, m': Memory) {
    && m'.arena == m.arena.(p2m := m'.arena.p2m) && |m'.arena.p2m| == |m.arena.p2m|
    && m.backed <= m'.backed && (m'.backed == m.backed || m'.backed <= CeilPages(end))
    && Backs(m'.arena.p2m, m'.backed, frame)
    && forall k :: m'.backed <= k < |m.arena.p2m| ==> m'.arena.p2m[k] == m.arena.p2m[k]
  }

  lemma GrownIs(frame: nat -> nat, m: Memory, end: nat, m': Memory)
    requires m.backed <= m'.backed && (m'.backed == m.backed || m'.backed <= CeilPages(end))
    requires m'.arena == m.arena.(p2m := m'.arena.p2m) && |m'.arena.p2m| == |m.arena.p2m|
    requires Backs(m'.arena.p2m, m'.backed, frame) && m'.arena.p2m[m'.backed..] == m.arena.p2m[m'.backed..]
    ensures Grown(frame, m, end, m')
  {
    forall k | m'.backed <= k < |m.arena.p2m| ensures m'.arena.p2m[k] == m.arena.p2m[k] {
      assert m'.arena.p2m[m'.backed..][k - m'.backed] == m.arena.p2m[m'.backed..][k - m'.backed];
    }
  }

  lemma GrownMore(frame: nat -> nat, m: Memory, end: nat, m1: Memory, m2: Memory)
    requires Grown(frame, m, end, m1) && Grown(frame, m1, end, m2)
    ensures Grown(frame, m, end, m2)
  {
  }

  /** A window call, which crosses no window in use. */
  ghost predicate Moved(m: Memory, c: W.Call, m': Memory) {
    && W.Allowed(m.arena, c) && (c.Down? ==> W.NextVacant(m.arena, c.mfns))
    && m' == Memory(W.After(m.arena, c), m.backed)
  }

  datatype Step = Grow(end: nat) | Window(c: W.Call)

  /** One call on the loader; RAM is asked for up to its ceiling at most. */
  ghost predicate Next(frame: nat -> nat, m: Memory, step: Step, m': Memory) {
    match step
    case Grow(end) => CeilPages(end) <= m.arena.base && Grown(frame, m, end, m')
    case Window(c) => Moved(m, c, m')
  }

  lemma GrowCalm(frame: nat -> nat, m: Memory, end: nat, m': Memory)
    requires Calm(m) && CeilPages(end) <= m.arena.base && Grown(frame, m, end, m')
    ensures Calm(m')
  {
    forall w | w in m.arena.live ensures W.Mapped(m'.arena, w) {
      assert W.Mapped(m.arena, w);
    }
    forall k | m.arena.base <= k < |m.arena.p2m| && m'.arena.p2m[k] != 0 ensures W.Owned(m'.arena, k) {
      assert W.Owned(m.arena, k);
    }
  }

  lemma CallFrame(a: W.Arena, c: W.Call)
    requires W.Sound(a) && W.Allowed(a, c)
    ensures var b := W.After(a, c);
            b.base == a.base && |b.p2m| == |a.p2m| && forall k :: 0 <= k < a.base ==> b.p2m[k] == a.p2m[k]
  {
    if c.Drop? {
      assert W.Mapped(a, c.w);
    }
  }

  lemma StepCalm(frame: nat -> nat, m: Memory, step: Step, m': Memory)
    requires Calm(m) && Backs(m.arena.p2m, m.backed, frame) && Next(frame, m, step, m')
    ensures Calm(m') && Backs(m'.arena.p2m, m'.backed, frame) && m'.arena.base == m.arena.base
  {
    match step
    case Grow(end) => GrowCalm(frame, m, end, m');
    case Window(c) =>
      W.CallSound(m.arena, c);
      CallFrame(m.arena, c);
  }

  lemma {:induction false} CalmRun(frame: nat -> nat, ms: seq<Memory>, steps: seq<Step>)
    requires |ms| == |steps| + 1 && forall i :: 0 <= i < |steps| ==> Next(frame, ms[i], steps[i], ms[i + 1])
    requires Calm(ms[0]) && Backs(ms[0].arena.p2m, ms[0].backed, frame)
    ensures var m := ms[|steps|]; Calm(m) && Backs(m.arena.p2m, m.backed, frame) && m.arena.base == ms[0].arena.base
    decreases |steps|
  {
    if steps == [] {
    } else {
      var n := |steps| - 1;
      CalmRun(frame, ms[..n + 1], steps[..n]);
      StepCalm(frame, ms[n], steps[n], ms[n + 1]);
    }
  }

  lemma FreshMemory(capacity: nat, base: nat, frame: nat -> nat)
    requires base <= capacity < W.ULONG
    ensures Calm(Memory(W.Fresh(capacity, base), 0)) && Backs(W.Zeros(capacity), 0, frame)
  {
  }

  /** Whatever calls for RAM, windows and their release follow each other from fresh tables on,
      RAM keeps the host's frames and ends below the arena, the windows stay sound, and nothing
      else is mapped. */
  lemma MemoryRun(capacity: nat, base: nat, frame: nat -> nat, ms: seq<Memory>, steps: seq<Step>)
    requires base <= capacity < W.ULONG && |ms| == |steps| + 1 && ms[0] == Memory(W.Fresh(capacity, base), 0)
    requires forall i :: 0 <= i < |steps| ==> Next(frame, ms[i], steps[i], ms[i + 1])
    ensures var m := ms[|steps|]; Calm(m) && Backs(m.arena.p2m, m.backed, frame) && m.arena.base == base
  {
    FreshMemory(capacity, base, frame);
    CalmRun(frame, ms, steps);
  }

  /** Above RAM, what is mapped is what live windows show. */
  lemma Shown(m: Memory, k: nat)
    requires Calm(m)
    ensures m.backed <= k ==> (W.Owned(m.arena, k) <==> k < |m.arena.p2m| && m.arena.p2m[k] != 0)
    ensures forall w :: w in m.arena.live && W.Covers(w, k) ==>
              m.arena.base <= k < |m.arena.p2m| && m.arena.p2m[k] == w.mfns[k - w.first]
  {
    forall w | w in m.arena.live && W.Covers(w, k)
      ensures m.arena.base <= k < |m.arena.p2m| && m.arena.p2m[k] == w.mfns[k - w.first] != 0
    {
      assert W.Mapped(m.arena, w);
    }
  }

  class Loader {
    const source: Source
    const index: Index
    var p2m: array<nat>
    var m2p: array<nat>
    var backed: nat
    var windowBase: nat
    var windowNext: nat
    ghost var live: set<W.Window>

    ghost function Arena(): (a: W.Arena)
      reads this, p2m
    {
      W.Arena(p2m[..], windowBase, windowNext, live)
    }

    ghost function Now(): (m: Memory)
      reads this, p2m
    {
      Memory(Arena(), backed)
    }

    /** RAM lies below the arena. */
    ghost predicate Parted()
      reads this
    {
      backed <= windowBase <= windowNext <= p2m.Length <= ULONG_MAX
    }

    ghost predicate Valid()
      reads this, p2m, m2p, index
    {
      && p2m != m2p && 3 * p2m.Length <= 2 * m2p.Length && 0 < p2m.Length
      && HashOk(p2m[..], m2p[..], backed)
      && index.Valid() && End(index.blocks) == backed
    }

    /** Every RAM page has the host's frame, no two the same. */
    ghost predicate Backing(frame: nat -> nat)
      reads this, p2m, m2p, index
    {
      Valid() && HostFrames(frame) && Backs(p2m[..], backed, frame)
    }

    /** Zeroed tables for the capacity: nothing is backed, nothing is found. */
    constructor (source: Source, capacity: nat, slots: nat, windowBase: nat)
      requires 0 < capacity && 3 * capacity <= 2 * slots
      ensures Valid() && fresh(p2m) && fresh(m2p) && fresh(index)
      ensures this.source == source && p2m.Length == capacity && m2p.Length == slots
      ensures Arena() == W.Arena(W.Zeros(capacity), windowBase, capacity, {})
      ensures backed == 0 && index.blocks == [] && forall i :: 0 <= i < capacity ==> p2m[i] == 0
    {
      this.source := source;
      this.index := new Index();
      p2m := new nat[capacity](_ => 0);
      m2p := new nat[slots](_ => 0);
      backed := 0;
      this.windowBase, windowNext, live := windowBase, capacity, {};
      new;
      OccupiedZero(m2p[..]);
    }

    /** The reverse lookup: total, and the inverse of the forward array on backed pages. */
    method MachineToPseudo(mfn: nat) returns (found: bool, ppfn: nat)
      requires Valid()
      ensures found ==> ppfn < backed && p2m[ppfn] == mfn
      ensures !found ==> forall i :: 0 <= i < backed ==> p2m[i] != mfn
    {
      var slots := m2p.Length;
      var h := Hash(mfn, slots);
      var slot := h;
      var probes := 0;
      ppfn := 0;
      while probes < slots
        invariant probes <= slots && slot == if probes < slots then Probe(h, probes, slots) else h
        invariant Missed(p2m[..], m2p[..], backed, mfn, probes)
      {
        var stored := m2p[slot];
        if stored == 0 {
          NotFound(p2m[..], m2p[..], backed, mfn, probes);
          return false, 0;
        }
        ppfn := stored - 1;
        if ppfn < backed && p2m[ppfn] == mfn {
          return true, ppfn;
        }
        slot := if slot + 1 == slots then 0 else slot + 1;
        probes := probes + 1;
      }
      NotFound(p2m[..], m2p[..], backed, mfn, probes);
      found := false;
    }

    /** Exactly RAM and the pages that live windows show translate, each to its own frame. */
    method PseudoToMachine(ppfn: nat) returns (found: bool, mfn: nat)
      requires Valid()
      ensures Calm(Now()) ==> (found <==> ppfn < backed || W.Owned(Arena(), ppfn))
      ensures found ==> ppfn < p2m.Length && mfn == p2m[ppfn]
      ensures Calm(Now()) ==> forall w :: w in live && W.Covers(w, ppfn) ==> mfn == w.mfns[ppfn - w.first]
    {
      if Calm(Now()) {
        Shown(Now(), ppfn);
      }
      if ppfn >= p2m.Length {
        return false, 0;
      }
      if ppfn >= backed && p2m[ppfn] == 0 {
        return false, 0;
      }
      return true, p2m[ppfn];
    }

    /** One page of a new block: the probe for an empty slot ends because the table has one. */
    method EnterPage(n: nat, mfn: nat)
      requires p2m != m2p && n < p2m.Length && n < m2p.Length && HashOk(p2m[..], m2p[..], n)
      requires forall i :: 0 <= i < n ==> p2m[i] != mfn
      modifies p2m, m2p
      ensures p2m[..] == old(p2m[..])[n := mfn]
      ensures HashOk(p2m[..], m2p[..], n + 1)
    {
      var slots := m2p.Length;
      var h := Hash(mfn, slots);
      ghost var (P, M) := (p2m[..], m2p[..]);
      ghost var empty := EmptySlot(M);
      ghost var limit := Translation.Distance(h, empty, slots);
      ghost var d := 0;
      p2m[n] := mfn;
      var slot := h;
      while m2p[slot] != 0
        invariant m2p[..] == M && p2m[..] == P[n := mfn]
        invariant d <= limit && slot == Probe(h, d, slots) && Busy(M, h, d)
        decreases limit - d
      {
        slot := if slot + 1 == slots then 0 else slot + 1;
        d := d + 1;
      }
      Enter(P, M, n, mfn, d);
      m2p[slot] := n + 1;
      assert m2p[..] == M[slot := n + 1];
    }

    /** The frames of a new block, page by page. */
    method EnterPages(first: nat, pages: nat, frame: nat -> nat)
      requires p2m != m2p && first + pages <= p2m.Length <= m2p.Length && HashOk(p2m[..], m2p[..], first)
      requires HostFrames(frame) && Backs(p2m[..], first, frame)
      modifies p2m, m2p
      ensures HashOk(p2m[..], m2p[..], first + pages) && Backs(p2m[..], first + pages, frame)
      ensures p2m[first + pages..] == old(p2m[first + pages..])
    {
      for i := 0 to pages
        invariant HashOk(p2m[..], m2p[..], first + i) && Backs(p2m[..], first + i, frame)
        invariant p2m[first + i..] == old(p2m[first + i..])
      {
        ghost var P := p2m[..];
        assert forall k :: 0 <= k < first + i ==> P[k] == p2m[k];
        EnterPage(first + i, frame(first + i));
        assert p2m[first + i + 1..] == P[first + i..][1..];
      }
    }

    /** A block the host has granted. */
    method BackBlock(pages: nat, host: nat, frame: nat -> nat)
      requires Valid() && HostFrames(frame) && Backs(p2m[..], backed, frame)
      requires 0 < pages && backed + pages <= p2m.Length
      modifies this`backed, p2m, m2p, index
      ensures Valid() && Backs(p2m[..], backed, frame)
      ensures backed == old(backed) + pages && index.blocks == old(index.blocks) + [Block(host, old(backed), pages)]
      ensures p2m[backed..] == old(p2m[..])[backed..]
    {
      EnterPages(backed, pages, frame);
      index.Append(host, pages);
      backed := backed + pages;
    }

    /** One more block, or a refusal that changes nothing. `granted` is the host's answer. */
    method BlockAlloc(bytes: nat, granted: bool, host: nat, frame: nat -> nat) returns (ok: bool)
      requires Backing(frame)
      modifies this`backed, p2m, m2p, index
      ensures Backing(frame)
      ensures ok <==> granted && Fits(source, |old(index.blocks)|, p2m.Length, old(backed), bytes)
      ensures ok ==> backed == old(backed) + BlockBytes(source, bytes) / PAGE
      ensures ok ==> index.blocks == old(index.blocks) + [Block(host, old(backed), BlockBytes(source, bytes) / PAGE)]
      ensures !ok ==> backed == old(backed) && index.blocks == old(index.blocks) && m2p[..] == old(m2p[..])
      ensures !ok ==> p2m[..] == old(p2m[..])
      ensures p2m[backed..] == old(p2m[..])[backed..]
    {
      if !granted || !Fits(source, |index.blocks|, p2m.Length, backed, bytes) {
        return false;
      }
      var pages := BlockBytes(source, bytes) / PAGE;
      BackBlock(pages, host, frame);
      ok := true;
    }

    /** One attempt at a block towards `end`, after k refusals. */
    method TryBlock(end: nat, attempt: nat, granted: bool, host: nat, frame: nat -> nat, ghost left: nat, ghost k: nat)
      returns (ok: bool)
      requires Backing(frame)
      requires Asking(end, backed, left, k, attempt)
      modifies this`backed, p2m, m2p, index
      ensures Backing(frame)
      ensures ok ==> Taken(source, p2m.Length, end, left, k, old(backed), |old(index.blocks)|, backed, |index.blocks|)
      ensures !ok ==> backed == old(backed) && index.blocks == old(index.blocks) && p2m[..] == old(p2m[..])
      ensures granted && Room(source, p2m.Length, end) && |old(index.blocks)| < 16384 ==> ok
      ensures !ok && attempt == PAGE ==> !granted || NoPage(source, |index.blocks|, p2m.Length, backed)
      ensures p2m[backed..] == old(p2m[..])[backed..]
    {
      TryIs(source, p2m.Length, end, left, k, attempt, backed, |index.blocks|);
      ok := BlockAlloc(attempt, granted, host, frame);
    }

    /** The next block towards `end`, halving the request each time the host refuses: after k
        refusals it asks for the pages wanted, 32 MiB of them at most, halved k times. */
    method GrowOnce(end: nat, tries: nat, grant: nat -> bool, host: nat -> nat, frame: nat -> nat, ghost left: nat)
      returns (ok: bool, tries': nat, ghost k: nat)
      requires Backing(frame) && left == end - backed * PAGE > 0
      modifies this`backed, p2m, m2p, index
      ensures Backing(frame) && tries' == tries + k + 1
      ensures Once(source, p2m.Length, end, left, k, old(backed), |old(index.blocks)|, backed, |index.blocks|, ok,
                   Generous(grant))
      ensures Grown(frame, old(Now()), end, Now())
    {
      tries', k := tries, 0;
      ghost var (c, generous, n, P) := (|index.blocks|, Generous(grant), backed, p2m[..]);
      AskedFirst(left, backed, end);
      var attempt := FirstAttempt(end - backed * PAGE);
      while true
        invariant Backing(frame) && backed == n && |index.blocks| == c && p2m[..] == P
        invariant tries' == tries + k && Asking(end, n, left, k, attempt)
        invariant generous && Room(source, p2m.Length, end) && c < 16384 ==> k == 0
        decreases attempt
      {
        ghost var m := Now();
        ok := TryBlock(end, attempt, grant(tries'), host(tries'), frame, left, k);
        GrownIs(frame, m, end, Now());
        tries' := tries' + 1;
        if ok {
          return;
        }
        if attempt == PAGE {
          return;
        }
        AskedHalved(end, n, left, k, attempt);
        attempt, k := Halved(attempt), k + 1;
      }
    }

    /** A single page more was asked for, and the host or one of the loader's limits refused. */
    ghost predicate RefusedPage(grant: nat -> bool)
      reads this, index
    {
      !Generous(grant) || NoPage(source, |index.blocks|, p2m.Length, backed)
    }

    /** Back RAM up to `end` bytes; `grant` answers the attempts in turn. Never a page beyond
        the end, and no entry above it touched. With a host that grants every request it succeeds
        exactly when tables and section are large enough and blocks of 32 MiB, or 8 MiB of a
        section, are few enough; an odd end takes one more for its last page. */
    method GrowTo(end: nat, grant: nat -> bool, host: nat -> nat, frame: nat -> nat) returns (ok: bool)
      requires Backing(frame)
      modifies this`backed, p2m, m2p, index
      ensures Backing(frame)
      ensures ok <==> backed * PAGE >= end
      ensures !ok ==> RefusedPage(grant)
      ensures Generous(grant) && old(backed) * PAGE < end ==>
                (ok <==> AllGranted(source, p2m.Length, end, old(backed), |old(index.blocks)|))
      ensures Grown(frame, old(Now()), end, Now())
    {
      var tries := 0;
      ghost var (count, start, m, generous) := (|index.blocks|, backed, Now(), Generous(grant));
      while backed * PAGE < end
        invariant Backing(frame) && Grown(frame, m, end, Now())
        invariant Growing(source, p2m.Length, end, generous, start, count, backed, |index.blocks|)
        decreases end - backed * PAGE
      {
        ghost var (m1, n, c) := (Now(), backed, |index.blocks|);
        ghost var (k, left) := (0, end - backed * PAGE);
        ok, tries, k := GrowOnce(end, tries, grant, host, frame, left);
        GrownMore(frame, m, end, m1, Now());
        GrowingOn(source, p2m.Length, end, generous, start, count, n, c, backed, |index.blocks|, left, k, ok);
        if !ok {
          return;
        }
      }
      GrowingEnds(source, p2m.Length, end, generous, start, count, backed, |index.blocks|);
      ok := true;
    }

    /** The rollback: clear entries downward from the last one stored. */
    method ClearBack(first: nat, count: nat)
      requires first + count <= p2m.Length
      modifies p2m
      ensures p2m[..] == W.Store(old(p2m[..]), first, W.Zeros(count))
    {
      ghost var P := p2m[..];
      var i := count;
      while i > 0
        invariant 0 <= i <= count
        invariant p2m[..] == W.Store(P, first + i, W.Zeros(count - i))
      {
        i := i - 1;
        p2m[first + i] := 0;
        assert p2m[..] == W.Store(P, first + i, W.Zeros(count - i));
      }
    }

    /** Store the frames from `first` on; at a frame zero, clear what was stored. */
    method FillSlots(first: nat, mfns: seq<nat>) returns (ok: bool)
      requires first + |mfns| <= p2m.Length
      modifies p2m
      ensures p2m[..] == W.Fill(old(p2m[..]), first, mfns)
      ensures ok <==> W.Good(mfns) == |mfns|
    {
      ghost var P := p2m[..];
      var i := 0;
      while i < |mfns|
        invariant i <= W.Good(mfns)
        invariant p2m[..] == W.Store(P, first, mfns[..i])
      {
        if mfns[i] == 0 {
          ClearBack(first, i);
          W.StoreAgain(P, first, mfns[..i], W.Zeros(i));
          return false;
        }
        ghost var Q := p2m[..];
        p2m[first + i] := mfns[i];
        assert p2m[..] == Q[first + i := mfns[i]];
        W.StoreNext(P, first, mfns, i);
        i := i + 1;
      }
      assert mfns[..i] == mfns;
      ok := true;
    }

    method FillWindow(first: nat, mfns: seq<nat>) returns (ok: bool)
      requires Valid() && backed <= first && first + |mfns| <= p2m.Length
      modifies p2m
      ensures Valid() && p2m[..] == W.Fill(old(p2m[..]), first, mfns)
      ensures ok <==> W.Good(mfns) == |mfns|
      ensures p2m[..backed] == old(p2m[..backed])
    {
      ghost var P := p2m[..];
      ok := FillSlots(first, mfns);
      HashFrame(P, p2m[..], m2p[..], backed);
    }

    method ClearWindow(first: nat, count: nat)
      requires Valid() && backed <= first && first + count <= p2m.Length
      modifies p2m
      ensures Valid() && p2m[..] == W.Store(old(p2m[..]), first, W.Zeros(count))
      ensures p2m[..backed] == old(p2m[..backed])
    {
      ghost var P := p2m[..];
      for i := 0 to count
        invariant p2m[..] == W.Store(P, first, W.Zeros(i))
      {
        p2m[first + i] := 0;
        assert p2m[..] == W.Store(P, first, W.Zeros(i + 1));
      }
      HashFrame(P, p2m[..], m2p[..], backed);
    }

    /** A window handed out downward; the reverse map never hears of it. */
    method WindowMap(mfns: seq<nat>) returns (rc: W.Rc)
      requires Valid() && Parted()
      modifies this`windowNext, this`live, p2m
      ensures Valid() && Parted() && (rc, Arena()) == W.MapDown(old(Arena()), mfns)
      ensures p2m[..backed] == old(p2m[..backed])
      ensures W.NextVacant(old(Arena()), mfns) ==> Moved(old(Now()), W.Down(mfns), Now())
    {
      var count := |mfns|;
      if count == 0 {
        return W.InvalidParameter;
      }
      if windowNext < count || windowNext - count < windowBase {
        return W.OutOfMemory;
      }
      rc := TakeDown(windowNext - count, mfns);
    }

    /** The next downward range filled, and taken unless a frame was bad. */
    method TakeDown(first: nat, mfns: seq<nat>) returns (rc: W.Rc)
      requires Valid() && Parted() && mfns != [] && windowBase <= first && first + |mfns| == windowNext
      modifies this`windowNext, this`live, p2m
      ensures Valid() && Parted() && (rc, Arena()) == W.MapDown(old(Arena()), mfns)
      ensures p2m[..backed] == old(p2m[..backed])
    {
      var ok := FillWindow(first, mfns);
      if !ok {
        return W.InvalidParameter;
      }
      W.MapDownFits(old(Arena()), mfns, first);
      windowNext := first;
      live := live + {W.Window(first, mfns)};
      rc := W.Ok;
    }

    /** A window where the caller asks, if every slot is vacant. */
    method WindowMapAt(first: nat, mfns: seq<nat>) returns (rc: W.Rc)
      requires Valid() && Parted() && W.Answered(Arena(), first, |mfns|)
      modifies this`live, p2m
      ensures Valid() && Parted() && (rc, Arena()) == W.MapAt(old(Arena()), first, mfns)
      ensures p2m[..backed] == old(p2m[..backed])
      ensures Moved(old(Now()), W.Place(first, mfns), Now())
    {
      var count := |mfns|;
      if count == 0 || first < windowBase || count > (p2m.Length - first) % W.ULONG {
        return W.InvalidParameter;
      }
      for i := 0 to count
        invariant W.Vacant(p2m[..], first, i)
      {
        if p2m[first + i] != 0 {
          return W.OutOfMemory;
        }
      }
      var ok := FillWindow(first, mfns);
      if !ok {
        return W.InvalidParameter;
      }
      live := live + {W.Window(first, mfns)};
      rc := W.Ok;
    }

    /** Clears a range of the arena and, if it is the lowest, takes it back. */
    method Release(first: nat, count: nat)
      requires Valid() && Parted() && count > 0 && windowBase <= first && first + count <= p2m.Length
      modifies this`windowNext, this`live, p2m
      ensures Valid() && Parted() && p2m[..] == W.Store(old(p2m[..]), first, W.Zeros(count))
      ensures live == W.Others(old(live), first, count) && p2m[..backed] == old(p2m[..backed])
      ensures windowNext == if first == old(windowNext) then first + count else old(windowNext)
    {
      ClearWindow(first, count);
      live := W.Others(live, first, count);
      if first == windowNext {
        windowNext := windowNext + count;
      }
    }

    method WindowUnmap(first: nat, count: nat)
      requires Valid() && Parted() && W.Answered(Arena(), first, count)
      modifies this`windowNext, this`live, p2m
      ensures Valid() && Parted() && Arena() == W.Unmap(old(Arena()), first, count)
      ensures p2m[..backed] == old(p2m[..backed])
      ensures forall w :: w in old(live) && w.first == first && |w.mfns| == count ==>
                Moved(old(Now()), W.Drop(w), Now())
    {
      if count == 0 || first < windowBase || count > (p2m.Length - first) % W.ULONG {
        return;
      }
      ghost var a := Arena();
      Release(first, count);
      W.UnmapFits(a, first, count, p2m[..]);
    }
  }

  /** Large enough tables, and section, for RAM up to `end`. */
  ghost predicate Room(source: Source, capacity: nat, end: nat) {
    CeilPages(end) <= capacity && (source.Section? ==> CeilPages(end) * PAGE <= source.bytes)
  }

  /** The loader's own limits leave no room for one page more. */
  ghost predicate NoPage(source: Source, count: nat, capacity: nat, backed: nat) {
    count >= 16384 || backed >= capacity || (source.Section? && (backed + 1) * 4096 > source.bytes)
  }

  lemma SectionEnd(source: Source, count: nat, capacity: nat, backed: nat, attempt: nat)
    requires attempt % PAGE == 0 && attempt > 0
    ensures Fits(source, count, capacity, backed, attempt) && source.Section? ==>
              (backed + BlockBytes(source, attempt) / PAGE) * PAGE <= source.bytes
    ensures attempt == PAGE ==>
              (Fits(source, count, capacity, backed, attempt) <==> !NoPage(source, count, capacity, backed))
  {
  }

  ghost predicate Generous(grant: nat -> bool) {
    forall t: nat :: grant(t)
  }

  lemma RoomFits(source: Source, count: nat, capacity: nat, backed: nat, attempt: nat, end: nat)
    requires 0 < attempt && attempt % PAGE == 0 && backed + attempt / PAGE <= CeilPages(end)
    ensures Room(source, capacity, end) && count < 16384 ==> Fits(source, count, capacity, backed, attempt)
  {
  }

  function UnitOf(source: Source): (u: nat)
    ensures u == 0x80_0000 || u == 0x200_0000
  {
    if source.Section? then 0x80_0000 else 0x200_0000
  }

  /** Blocks that a host which grants everything gives for so many bytes. */
  function BlocksFor(left: nat, unit: nat): nat
    requires unit == 0x80_0000 || unit == 0x200_0000
  {
    left / unit + if left % unit == 0 then 0 else if left % unit < 4096 || left % 4096 == 0 then 1 else 2
  }

  function BlocksLeft(end: nat, backed: nat, unit: nat): nat
    requires unit == 0x80_0000 || unit == 0x200_0000
  {
    if backed * PAGE < end then BlocksFor(end - backed * PAGE, unit) else 0
  }

  lemma UnitLess(left: nat, unit: nat)
    requires left >= unit && (unit == 0x80_0000 || unit == 0x200_0000)
    ensures left / unit == 1 + (left - unit) / unit && left % unit == (left - unit) % unit
    ensures left % 4096 == (left - unit) % 4096
  {
  }

  lemma BlocksStep(left: nat, unit: nat, g: nat)
    requires left > 0 && (unit == 0x80_0000 || unit == 0x200_0000)
    requires g == Max(1, Min(left / 4096, unit / 4096))
    ensures BlocksFor(left, unit) == 1 + if left > g * 4096 then BlocksFor(left - g * 4096, unit) else 0
  {
    if left >= unit {
      assert left / 4096 >= unit / 4096 && g * 4096 == unit;
      UnitLess(left, unit);
    } else {
      RestBlocks(left, unit, g);
    }
  }

  lemma RestBlocks(left: nat, unit: nat, g: nat)
    requires 0 < left < unit && (unit == 0x80_0000 || unit == 0x200_0000) && g == Max(1, left / 4096)
    ensures BlocksFor(left, unit) == 1 + if left > g * 4096 then BlocksFor(left - g * 4096, unit) else 0
    ensures left / 4096 <= unit / 4096
  {
    assert left / unit == 0 && left % unit == left;
    if left > g * 4096 {
      var rest := left - g * 4096;
      assert rest < 4096 && rest / unit == 0 && rest % unit == rest;
    }
  }

  /** Growth on its way: what it has taken, and, of a host that refuses nothing, what is left. */
  ghost predicate Growing(source: Source, capacity: nat, end: nat, generous: bool, start: nat, count: nat,
                          backed: nat, blocks: nat)
  {
    && start <= backed && (backed == start ==> blocks == count)
    && (backed > start ==> blocks <= 16384 && backed <= capacity && (source.Section? ==> backed * PAGE <= source.bytes))
    && (generous && Room(source, capacity, end) ==>
          blocks + BlocksLeft(end, backed, UnitOf(source)) == count + BlocksLeft(end, start, UnitOf(source)))
  }

  /** When growth from `start` on succeeds with a host that refuses nothing. */
  ghost predicate AllGranted(source: Source, capacity: nat, end: nat, start: nat, count: nat)
    requires start * PAGE < end
  {
    Room(source, capacity, end) && count + BlocksFor(end - start * PAGE, UnitOf(source)) <= 16384
  }

  /** In numbers: tables and section reach the end, and the blocks of 32 MiB, or of 8 MiB in a
      section, with one more for a rest and two for a rest of odd length, are 16384 at most. */
  lemma AllGrantedIs(source: Source, capacity: nat, end: nat, start: nat, count: nat)
    requires start * 4096 < end
    ensures var (left, unit) := (end - start * 4096, if source.Section? then 0x80_0000 else 0x200_0000);
            var rest := if left % unit == 0 then 0 else if left % unit < 4096 || left % 4096 == 0 then 1 else 2;
            AllGranted(source, capacity, end, start, count) <==>
              && (end + 4095) / 4096 <= capacity
              && (source.Section? ==> (end + 4095) / 4096 * 4096 <= source.bytes)
              && count + left / unit + rest <= 16384
  {
  }

  /** A block was taken at the attempt after k refusals. */
  ghost predicate Taken(source: Source, capacity: nat, end: nat, left: nat, k: nat, n: nat, c: nat, backed: nat,
                        blocks: nat)
  {
    && backed == n + Got(source, left, k) && n < backed <= CeilPages(end) && backed <= capacity
    && blocks == c + 1 <= 16384 && (source.Section? ==> backed * PAGE <= source.bytes)
    && (k == 0 ==> BlocksLeft(end, n, UnitOf(source)) == 1 + BlocksLeft(end, backed, UnitOf(source)))
  }

  lemma TryIs(source: Source, capacity: nat, end: nat, left: nat, k: nat, attempt: nat, n: nat, c: nat)
    requires Asking(end, n, left, k, attempt)
    ensures Fits(source, c, capacity, n, attempt) ==>
              Taken(source, capacity, end, left, k, n, c, n + BlockBytes(source, attempt) / PAGE, c + 1)
    ensures Room(source, capacity, end) && c < 16384 ==> Fits(source, c, capacity, n, attempt)
    ensures !Fits(source, c, capacity, n, attempt) && attempt == PAGE ==> NoPage(source, c, capacity, n)
  {
    RoomFits(source, c, capacity, n, attempt, end);
    BlockPages(source, left, k);
    SectionEnd(source, c, capacity, n, attempt);
    BlocksNext(source, end, n);
  }

  /** The outcome of growing by one block. */
  ghost predicate Once(source: Source, capacity: nat, end: nat, left: nat, k: nat, n: nat, c: nat, backed: nat,
                       blocks: nat, ok: bool, generous: bool)
  {
    && (ok ==> Taken(source, capacity, end, left, k, n, c, backed, blocks))
    && (!ok ==> backed == n && blocks == c && (!generous || NoPage(source, blocks, capacity, backed)))
    && (generous && Room(source, capacity, end) && c < 16384 ==> ok && k == 0)
  }

  lemma GrowingStep(source: Source, capacity: nat, end: nat, generous: bool, start: nat, count: nat,
                    n: nat, c: nat, backed: nat, blocks: nat, k: nat)
    requires Growing(source, capacity, end, generous, start, count, n, c) && n * PAGE < end
    requires Taken(source, capacity, end, end - n * PAGE, k, n, c, backed, blocks)
    requires generous && Room(source, capacity, end) && c < 16384 ==> k == 0
    ensures Growing(source, capacity, end, generous, start, count, backed, blocks)
  {
  }

  lemma GrowingFails(source: Source, capacity: nat, end: nat, generous: bool, start: nat, count: nat,
                     backed: nat, blocks: nat)
    requires Growing(source, capacity, end, generous, start, count, backed, blocks) && backed * PAGE < end
    requires generous && Room(source, capacity, end) ==> blocks >= 16384
    ensures generous ==> start * PAGE < end && !AllGranted(source, capacity, end, start, count)
  {
    AtLeastOne(end - backed * PAGE, UnitOf(source));
  }

  /** Growth goes on with each block, and its first failure is the verdict. */
  lemma GrowingOn(source: Source, capacity: nat, end: nat, generous: bool, start: nat, count: nat, n: nat, c: nat,
                  backed: nat, blocks: nat, left: nat, k: nat, ok: bool)
    requires Growing(source, capacity, end, generous, start, count, n, c) && left == end - n * PAGE > 0
    requires Once(source, capacity, end, left, k, n, c, backed, blocks, ok, generous)
    ensures ok ==> Growing(source, capacity, end, generous, start, count, backed, blocks)
    ensures !ok && generous ==> start * PAGE < end && !AllGranted(source, capacity, end, start, count)
  {
    if ok {
      GrowingStep(source, capacity, end, generous, start, count, n, c, backed, blocks, k);
    } else {
      GrowingFails(source, capacity, end, generous, start, count, backed, blocks);
    }
  }

  lemma GrowingEnds(source: Source, capacity: nat, end: nat, generous: bool, start: nat, count: nat,
                    backed: nat, blocks: nat)
    requires Growing(source, capacity, end, generous, start, count, backed, blocks) && backed * PAGE >= end
    ensures generous && start * PAGE < end ==> AllGranted(source, capacity, end, start, count)
  {
  }

  lemma AtLeastOne(left: nat, unit: nat)
    requires left > 0 && (unit == 0x80_0000 || unit == 0x200_0000)
    ensures BlocksFor(left, unit) >= 1
  {
  }

  /** Halved k times, rounding down. */
  function Halvings(n: nat, k: nat): nat {
    if k == 0 then n else Halvings(n, k - 1) / 2
  }

  function Pow2(k: nat): (p: nat)
    ensures p > 0
  {
    if k == 0 then 1 else 2 * Pow2(k - 1)
  }

  /** Pages asked for after k refusals, towards so many bytes. */
  function Asked(left: nat, k: nat): nat {
    Max(1, Halvings(Min(left / 4096, 8192), k))
  }

  lemma AskedNext(left: nat, k: nat)
    ensures Asked(left, k + 1) == Max(1, Asked(left, k) / 2) && Asked(left, k) <= 8192
  {
    HalvingsLess(Min(left / 4096, 8192), k);
  }

  /** An attempt's bytes are the pages asked for, and no more than are wanted. */
  ghost predicate Asking(end: nat, backed: nat, left: nat, k: nat, attempt: nat) {
    && attempt == Asked(left, k) * PAGE && backed + Asked(left, k) <= CeilPages(end)
    && end == backed * PAGE + left && left > 0
  }

  lemma AskedHalved(end: nat, backed: nat, left: nat, k: nat, attempt: nat)
    requires Asking(end, backed, left, k, attempt) && attempt != PAGE
    ensures attempt > PAGE && attempt % PAGE == 0 && Asking(end, backed, left, k + 1, Halved(attempt))
  {
    AskedNext(left, k);
  }

  lemma AskedFirst(left: nat, backed: nat, end: nat)
    requires left > 0 && end == backed * PAGE + left
    ensures Asking(end, backed, left, 0, FirstAttempt(left))
  {
    assert Halvings(Min(left / 4096, 8192), 0) == Min(left / 4096, 8192);
  }

  lemma {:induction false} HalvingsLess(n: nat, k: nat)
    ensures Halvings(n, k) <= n
  {
    if k == 0 {
    } else {
      HalvingsLess(n, k - 1);
    }
  }

  /** Pages granted then: those asked for, of a section at most 8 MiB of them. */
  function Got(source: Source, left: nat, k: nat): nat {
    if source.Section? then Min(Asked(left, k), 2048) else Asked(left, k)
  }

  lemma BlockPages(source: Source, left: nat, k: nat)
    ensures BlockBytes(source, Asked(left, k) * PAGE) / PAGE == Got(source, left, k)
  {
  }

  /** What the first attempt of a block takes off the blocks still needed. */
  lemma BlocksNext(source: Source, end: nat, backed: nat)
    requires backed * PAGE < end
    ensures BlocksLeft(end, backed, UnitOf(source))
            == 1 + BlocksLeft(end, backed + Got(source, end - backed * PAGE, 0), UnitOf(source))
  {
    var (left, unit) := (end - backed * PAGE, UnitOf(source));
    assert Halvings(Min(left / 4096, 8192), 0) == Min(left / 4096, 8192);
    BlocksStep(left, unit, Got(source, left, 0));
  }

  /** That is the quotient by the power of two. */
  lemma {:induction false} HalvingsIs(n: nat, k: nat)
    ensures Halvings(n, k) * Pow2(k) <= n < (Halvings(n, k) + 1) * Pow2(k)
    decreases k
  {
    if k == 0 {
    } else {
      HalvingsIs(n, k - 1);
      HalfStep(n, Halvings(n, k - 1), Pow2(k - 1));
    }
  }

  lemma HalfStep(n: nat, h: nat, p: nat)
    requires h * p <= n < (h + 1) * p
    ensures h / 2 * (2 * p) <= n < (h / 2 + 1) * (2 * p)
  {
    var c := h / 2;
    assert c * (2 * p) == (2 * c) * p && (c + 1) * (2 * p) == (2 * c + 2) * p;
    if h == 2 * c {
      assert (h + 1) * p <= (2 * c + 2) * p;
    } else {
      assert (2 * c) * p <= h * p;
    }
  }

  /** The next request: at most a chunk, whole pages, at least one. */
  function FirstAttempt(want: nat): (a: nat)
    requires want > 0
    ensures a == Max(1, Min(want / 4096, 8192)) * PAGE && a / PAGE <= CeilPages(want)
  {
    var w := if want > CHUNK then CHUNK else want;
    var masked := w / PAGE * PAGE;
    if masked == 0 then PAGE else masked
  }

  function Halved(attempt: nat): (a: nat)
    requires attempt > PAGE && attempt % PAGE == 0
    ensures a == Max(1, attempt / PAGE / 2) * PAGE && a < attempt
  {
    var h := attempt / 2 / PAGE * PAGE;
    if h < PAGE then PAGE else h
  }
}
