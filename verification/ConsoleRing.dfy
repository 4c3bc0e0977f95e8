/** The console's two rings in guest memory: keystrokes in, output out. */
module ConsoleRing {
  import opened Sizes
  import opened Words

  type Byte = b: nat | b < 256

  const IN_SIZE: nat := 1024
  const OUT_SIZE: nat := 4096

  function Next(w: nat): (r: nat)
    ensures r < WORD
  {
    (w + 1) % WORD
  }

  lemma NextWraps(w: nat, p: nat)
    requires Wraps(w, p)
    ensures Wraps(Next(w), p + 1)
  {
  }

  lemma InSlot(w: nat, p: nat)
    requires Wraps(w, p)
    ensures w % IN_SIZE == p % IN_SIZE
  {
    assert p == p / WORD * WORD + w;
  }

  lemma OutSlot(w: nat, p: nat)
    requires Wraps(w, p)
    ensures w % OUT_SIZE == p % OUT_SIZE
  {
    assert p == p / WORD * WORD + w;
  }

  lemma NextDistance(w: nat, t: nat)
    requires w < WORD && t < WORD && Sub32(w, t) + 1 < WORD
    ensures Sub32(Next(w), t) == Sub32(w, t) + 1
  {
  }

  lemma NextBehind(h: nat, w: nat)
    requires w < WORD && h < WORD && w != h
    ensures Sub32(h, Next(w)) == Sub32(h, w) - 1
  {
  }

  /** The byte at position p of either ring. */
  function InAt(ring: seq<Byte>, p: nat): Byte
    requires |ring| == IN_SIZE
  {
    ring[p % IN_SIZE]
  }

  function OutAt(ring: seq<Byte>, p: nat): Byte
    requires |ring| == OUT_SIZE
  {
    ring[p % OUT_SIZE]
  }

  /** Writing position h disturbs no other position less than a turn away. */
  lemma InApart(ring: seq<Byte>, h: nat, b: Byte, p: nat)
    requires |ring| == IN_SIZE && p != h && h < p + IN_SIZE && p < h + IN_SIZE
    ensures InAt(ring[h % IN_SIZE := b], p) == InAt(ring, p)
  {
  }

  /** n keystrokes lie from position h on, and the rest of the turn is as it was. */
  ghost predicate Laid(ring: seq<Byte>, was: seq<Byte>, h: nat, keys: seq<Byte>, n: nat) {
    && |ring| == |was| == IN_SIZE && n <= |keys| && n <= IN_SIZE
    && (forall p :: h <= p < h + n ==> InAt(ring, p) == keys[p - h])
    && forall p :: h + n <= p < h + IN_SIZE ==> InAt(ring, p) == InAt(was, p)
  }

  lemma LayOne(ring: seq<Byte>, was: seq<Byte>, h: nat, keys: seq<Byte>, n: nat)
    requires Laid(ring, was, h, keys, n) && n < |keys| && n < IN_SIZE
    ensures Laid(ring[(h + n) % IN_SIZE := keys[n]], was, h, keys, n + 1)
  {
    var ring' := ring[(h + n) % IN_SIZE := keys[n]];
    forall p | h <= p < h + IN_SIZE && p != h + n ensures InAt(ring', p) == InAt(ring, p) {
      InApart(ring, h + n, keys[n], p);
    }
  }

  /** How many keystrokes fit. */
  function Fits(head: nat, tail: nat, n: nat): nat
    requires head < WORD && tail < WORD
  {
    if Sub32(head, tail) >= IN_SIZE then 0 else Min(n, IN_SIZE - Sub32(head, tail))
  }

  class Console {
    var input: seq<Byte>
    var inHead: nat
    var inTail: nat
    var output: seq<Byte>
    var outHead: nat
    var outTail: nat

    ghost predicate Sane()
      reads this
    {
      && |input| == IN_SIZE && |output| == OUT_SIZE
      && inHead < WORD && inTail < WORD && outHead < WORD && outTail < WORD
    }

    /** Keystrokes in: as many as fit, in order, after what the guest has yet to read. */
    method PumpIn(keys: seq<Byte>) returns (taken: nat)
      requires Sane()
      modifies `input, `inHead
      ensures Sane() && taken == Fits(old(inHead), inTail, |keys|)
      ensures var held := Sub32(old(inHead), inTail);
              taken == if held >= 1024 then 0 else if |keys| < 1024 - held then |keys| else 1024 - held
      ensures inHead == (old(inHead) + taken) % WORD && Laid(input, old(input), old(inHead), keys, taken)
    {
      var ring, head, n := Fill(input, inHead, inTail, keys);
      input := ring;
      if n != 0 {
        inHead := head;
      }
      taken := n;
    }

    /** Output out: what the guest printed since, or the last ring's worth of it. */
    method PumpOut(room: nat) returns (out: seq<Byte>)
      requires Sane()
      modifies `outTail
      ensures Sane() && Pumped(output, Oldest(outHead, old(outTail)), |out|, out)
      ensures var held := Sub32(outHead, old(outTail));
              |out| == Min(room, if held < 4096 then held else 4096)
      ensures outTail == if |out| > 0 then (Oldest(outHead, old(outTail)) + |out|) % WORD else old(outTail)
    {
      var head: nat, tail: nat := outHead, outTail;
      if Sub32(head, tail) > OUT_SIZE {
        tail := Sub32(head, OUT_SIZE);
      }
      out, tail := Collect(output, head, tail, room);
      if |out| != 0 {
        outTail := tail;
      }
    }
  }

  /** Writes keystrokes from head on until the ring is full or they are used up. */
  method Fill(was: seq<Byte>, from: nat, tail: nat, keys: seq<Byte>) returns (ring: seq<Byte>, head: nat, n: nat)
    requires |was| == IN_SIZE && from < WORD && tail < WORD
    ensures n == Fits(from, tail, |keys|) && head == (from + n) % WORD && Laid(ring, was, from, keys, n)
  {
    ring, head, n := was, from, 0;
    while n < |keys| && Sub32(head, tail) < IN_SIZE
      invariant n <= |keys| && head < WORD && Wraps(head, from + n)
      invariant Sub32(head, tail) == Sub32(from, tail) + n && (n == 0 || Sub32(from, tail) + n <= IN_SIZE)
      invariant Laid(ring, was, from, keys, n)
    {
      LayOne(ring, was, from, keys, n);
      InSlot(head, from + n);
      NextWraps(head, from + n);
      NextDistance(head, tail);
      ring, head, n := ring[head % IN_SIZE := keys[n]], Next(head), n + 1;
    }
  }

  /** Reads bytes from tail on until the head or the end of the caller's buffer. */
  method Collect(output: seq<Byte>, head: nat, from: nat, room: nat) returns (out: seq<Byte>, tail: nat)
    requires |output| == OUT_SIZE && head < WORD && from < WORD
    ensures Pumped(output, from, Min(room, Sub32(head, from)), out) && tail == (from + |out|) % WORD
  {
    out, tail := [], from;
    while |out| < room && tail != head
      invariant tail < WORD && Wraps(tail, from + |out|) && |out| <= room
      invariant Sub32(head, tail) == Sub32(head, from) - |out|
      invariant Pumped(output, from, |out|, out)
    {
      PumpOne(output, from, out, tail);
      NextWraps(tail, from + |out|);
      NextBehind(head, tail);
      out, tail := out + [output[tail % OUT_SIZE]], Next(tail);
    }
  }

  lemma PumpOne(output: seq<Byte>, from: nat, out: seq<Byte>, tail: nat)
    requires |output| == OUT_SIZE && Pumped(output, from, |out|, out) && Wraps(tail, from + |out|)
    ensures Pumped(output, from, |out| + 1, out + [output[tail % OUT_SIZE]])
  {
    OutSlot(tail, from + |out|);
  }

  /** n bytes of output from position p on. */
  ghost predicate Pumped(output: seq<Byte>, p: nat, n: nat, out: seq<Byte>)
    requires |output| == OUT_SIZE
  {
    |out| == n && forall q :: p <= q < p + n ==> out[q - p] == OutAt(output, q)
  }

  /** Where reading resumes: the tail, or a ring's length behind the head if that is later. */
  function Oldest(head: nat, tail: nat): (t: nat)
    requires head < WORD && tail < WORD
    ensures t < WORD && Sub32(head, t) <= OUT_SIZE
  {
    if Sub32(head, tail) > OUT_SIZE then Sub32(head, OUT_SIZE) else tail
  }

  /** That far behind the head, and a ring at most: 1024 bytes in, 4096 bytes out. */
  lemma OldestIs(head: nat, tail: nat)
    requires head < WORD && tail < WORD
    ensures var held := Sub32(head, tail);
            Oldest(head, tail) == Sub32(head, if held < 4096 then held else 4096)
    ensures IN_SIZE == 1024
  {
  }

  // ----- Keystrokes as a protocol -----

  /** Positions are counted without bound from start; memory holds them modulo 2^32. While the
      host writes, next is its private head and seen the tail it read once. */
  datatype Keys = Keys(
    ring: seq<Byte>, head: nat, tail: nat, writing: bool, next: nat, seen: nat,
    start: nat, sent: seq<Byte>, staged: seq<Byte>, got: seq<Byte>)

  datatype KeyStep = Open | Type(b: Byte) | Publish | Read

  ghost predicate KeysInit(s: Keys) {
    |s.ring| == IN_SIZE && s.head == s.tail == s.start && !s.writing && s.sent == s.staged == s.got == []
  }

  ghost predicate KeyEnabled(s: Keys, step: KeyStep) {
    match step
    case Open => !s.writing
    case Type(_) => s.writing && Sub32(s.next % WORD, s.seen % WORD) < IN_SIZE
    case Publish => s.writing
    case Read => s.head % WORD != s.tail % WORD
  }

  function KeyApply(s: Keys, step: KeyStep): Keys
    requires |s.ring| == IN_SIZE
  {
    match step
    case Open => s.(writing := true, next := s.head, seen := s.tail, staged := [])
    case Type(b) => s.(ring := s.ring[s.next % WORD % IN_SIZE := b], next := s.next + 1, staged := s.staged + [b])
    case Publish => s.(writing := false, head := s.next, sent := s.sent + s.staged)
    case Read => s.(tail := s.tail + 1, got := s.got + [InAt(s.ring, s.tail % WORD)])
  }

  /** The bytes of the stream from position start that lie in the ring between two positions. */
  ghost predicate Holds(ring: seq<Byte>, from: nat, to: nat, start: nat, stream: seq<Byte>) {
    && |ring| == IN_SIZE && start <= from && to <= start + |stream|
    && forall p :: from <= p < to ==> InAt(ring, p) == stream[p - start]
  }

  ghost predicate KeysInv(s: Keys) {
    && s.got <= s.sent && s.tail == s.start + |s.got| && s.head == s.start + |s.sent| <= s.tail + IN_SIZE
    && Holds(s.ring, s.tail, s.head, s.start, s.sent)
    && (s.writing ==>
          && s.next == s.head + |s.staged| <= s.seen + IN_SIZE && s.seen <= s.tail
          && Holds(s.ring, s.tail, s.next, s.start, s.sent + s.staged))
  }

  lemma KeyInvStep(s: Keys, step: KeyStep)
    requires KeysInv(s) && KeyEnabled(s, step)
    ensures KeysInv(KeyApply(s, step))
  {
    match step
    case Open =>
      assert s.sent + [] == s.sent;
    case Type(b) =>
      TypeKeeps(s, b);
    case Publish =>
      assert forall i :: 0 <= i < |s.got| ==> (s.sent + s.staged)[i] == s.got[i];
    case Read =>
      ReadKeeps(s);
  }

  lemma ReadKeeps(s: Keys)
    requires KeysInv(s) && KeyEnabled(s, Read)
    ensures KeysInv(KeyApply(s, Read))
  {
    InSlot(s.tail % WORD, s.tail);
    assert InAt(s.ring, s.tail) == s.sent[|s.got|];
    assert s.sent[..|s.got| + 1] == s.got + [s.sent[|s.got|]];
  }

  lemma TypeKeeps(s: Keys, b: Byte)
    requires KeysInv(s) && KeyEnabled(s, Type(b))
    ensures KeysInv(KeyApply(s, Type(b)))
  {
    Gap(s.next % WORD, s.next, s.seen % WORD, s.seen);
    InSlot(s.next % WORD, s.next);
    var ring := s.ring[s.next % IN_SIZE := b];
    assert s.sent + (s.staged + [b]) == s.sent + s.staged + [b];
    forall p | s.tail <= p < s.next ensures InAt(ring, p) == InAt(s.ring, p) {
      InApart(s.ring, s.next, b, p);
    }
  }

  ghost predicate KeysCanRun(s: Keys, steps: seq<KeyStep>)
    decreases |steps|
  {
    steps == [] || (|s.ring| == IN_SIZE && KeyEnabled(s, steps[0]) && KeysCanRun(KeyApply(s, steps[0]), steps[1..]))
  }

  ghost function KeysExec(s: Keys, steps: seq<KeyStep>): Keys
    requires KeysCanRun(s, steps)
    decreases |steps|
  {
    if steps == [] then s else KeysExec(KeyApply(s, steps[0]), steps[1..])
  }

  lemma {:induction false} KeysRun(s: Keys, steps: seq<KeyStep>)
    requires KeysInv(s) && KeysCanRun(s, steps)
    ensures KeysInv(KeysExec(s, steps))
    decreases |steps|
  {
    if steps == [] {
    } else {
      KeyInvStep(s, steps[0]);
      KeysRun(KeyApply(s, steps[0]), steps[1..]);
    }
  }

  /** The guest reads exactly the keystrokes offered, in order, and the ring never overflows. */
  lemma KeysArrive(s0: Keys, steps: seq<KeyStep>)
    requires KeysInit(s0) && KeysCanRun(s0, steps)
    ensures var s := KeysExec(s0, steps);
            s.got <= s.sent && Sub32(s.head % WORD, s.tail % WORD) == |s.sent| - |s.got| <= IN_SIZE
  {
    KeysRun(s0, steps);
    var s := KeysExec(s0, steps);
    Gap(s.head % WORD, s.head, s.tail % WORD, s.tail);
  }

  // ----- Output -----

  /** The ring holds the last bytes the guest printed; head is the position past them. */
  ghost predicate Shows(ring: seq<Byte>, head: nat, start: nat, printed: seq<Byte>) {
    && |ring| == OUT_SIZE && head == start + |printed|
    && forall p :: start <= p < head && head <= p + OUT_SIZE ==> OutAt(ring, p) == printed[p - start]
  }

  lemma OutApart(ring: seq<Byte>, h: nat, b: Byte, p: nat)
    requires |ring| == OUT_SIZE && p < h < p + OUT_SIZE
    ensures OutAt(ring[h % OUT_SIZE := b], p) == OutAt(ring, p)
  {
  }

  /** The guest prints without regard to the tail. */
  lemma PrintShows(ring: seq<Byte>, head: nat, start: nat, printed: seq<Byte>, b: Byte)
    requires Shows(ring, head, start, printed)
    ensures Shows(ring[head % OUT_SIZE := b], head + 1, start, printed + [b])
  {
    var (ring', all) := (ring[head % OUT_SIZE := b], printed + [b]);
    forall p | start <= p < head + 1 && head + 1 <= p + OUT_SIZE ensures OutAt(ring', p) == all[p - start] {
      if p < head {
        OutApart(ring, head, b, p);
      }
    }
  }

  /** Where a pump resumes, as a position. */
  function Resume(head: nat, tail: nat): (from: nat)
    requires tail <= head
    ensures tail <= from <= head <= from + OUT_SIZE
  {
    if head - tail > OUT_SIZE then head - OUT_SIZE else tail
  }

  lemma ResumeWraps(head: nat, tail: nat)
    requires tail <= head < tail + WORD
    ensures Wraps(Oldest(head % WORD, tail % WORD), Resume(head, tail))
  {
    Gap(head % WORD, head, tail % WORD, tail);
  }

  lemma OutAtWraps(ring: seq<Byte>, w: nat, p: nat, i: nat)
    requires |ring| == OUT_SIZE && Wraps(w, p)
    ensures OutAt(ring, w + i) == OutAt(ring, p + i)
  {
    Turn(p / WORD, w + i);
    assert p + i == p / WORD * WORD + (w + i);
  }

  lemma Turn(k: nat, x: nat)
    ensures (k * WORD + x) % OUT_SIZE == x % OUT_SIZE
  {
    Remainder(k * 0x10_0000 + x / OUT_SIZE, x % OUT_SIZE);
  }

  lemma Remainder(m: nat, r: nat)
    requires r < OUT_SIZE
    ensures (m * OUT_SIZE + r) % OUT_SIZE == r
  {
  }

  /** A pump returns a run of what was printed, without a gap, from the tail on if the guest
      printed no more than a ring's worth since, else from a ring's worth back. */
  lemma PumpReturnsPrinted(ring: seq<Byte>, head: nat, tail: nat, start: nat, printed: seq<Byte>, n: nat,
                           out: seq<Byte>)
    requires Shows(ring, head, start, printed) && start <= tail <= head < tail + WORD
    requires n <= head - Resume(head, tail) && Pumped(ring, Oldest(head % WORD, tail % WORD), n, out)
    ensures out == printed[Resume(head, tail) - start..Resume(head, tail) - start + n]
  {
    var (w, from) := (Oldest(head % WORD, tail % WORD), Resume(head, tail));
    ResumeWraps(head, tail);
    forall i | 0 <= i < n ensures out[i] == printed[from - start + i] {
      assert out[w + i - w] == OutAt(ring, w + i);
      OutAtWraps(ring, w, from, i);
    }
  }
}
