/** Console output as a protocol: the guest prints whenever it likes, also while the host pumps. */
module ConsoleFlow {
  import opened ConsoleRing
  import opened Sizes
  import opened Words

  /** Positions are counted without bound from start; memory holds them modulo 2^32. While the
      host pumps, end is the head it read once, from where it resumed, and heads what the guest's
      head had become at each byte read into out. */
  datatype Out = Out(
    ring: seq<Byte>, head: nat, tail: nat, start: nat, printed: seq<Byte>,
    pumping: bool, end: nat, from: nat, out: seq<Byte>, heads: seq<nat>)

  datatype Step =
    | Print(b: Byte)     // the guest, without regard to the tail
    | Begin              // the host reads both indices and skips what is lost
    | Fetch              // one byte
    | Close              // the tail is stored if anything was read

  ghost predicate Init(s: Out) {
    && |s.ring| == OUT_SIZE && s.head == s.tail == s.start && s.printed == []
    && !s.pumping && s.from == s.start && s.out == [] && s.heads == []
  }

  function At(s: Out): nat {
    s.from + |s.out|
  }

  predicate Enabled(s: Out, step: Step) {
    match step
    case Print(_) => true
    case Begin => !s.pumping
    case Fetch => s.pumping && At(s) % WORD != s.end % WORD
    case Close => s.pumping
  }

  /** Where the host resumes: as far behind the head as the two words say, but a ring at most. */
  function Start(head: nat, tail: nat): nat {
    var behind := Min(Sub32(head % WORD, tail % WORD), OUT_SIZE);
    if behind <= head then head - behind else 0
  }

  function Apply(s: Out, step: Step): Out
    requires |s.ring| == OUT_SIZE
  {
    match step
    case Print(b) => s.(ring := s.ring[s.head % WORD % OUT_SIZE := b], head := s.head + 1, printed := s.printed + [b])
    case Begin => s.(pumping := true, end := s.head, from := Start(s.head, s.tail), out := [], heads := [])
    case Fetch => s.(out := s.out + [s.ring[At(s) % WORD % OUT_SIZE]], heads := s.heads + [s.head])
    case Close => s.(pumping := false, tail := if s.out == [] then s.tail else At(s))
  }

  /** The last position below head that falls on the same byte of the ring as p. */
  function Latest(p: nat, head: nat): (q: nat)
    requires p < head
    ensures p <= q < head <= q + OUT_SIZE && q % OUT_SIZE == p % OUT_SIZE
    ensures q == p <==> head <= p + OUT_SIZE
    decreases head - p
  {
    if head <= p + OUT_SIZE then p else Latest(p + OUT_SIZE, head)
  }

  /** Each byte is the last one printed to its place by the time it was read. */
  ghost predicate Fetched(start: nat, printed: seq<Byte>, head: nat, from: nat, out: seq<Byte>, heads: seq<nat>) {
    && |out| == |heads| && start <= from && from + |out| <= head == start + |printed|
    && forall i :: 0 <= i < |out| ==>
         from + i < heads[i] <= head && out[i] == printed[Latest(from + i, heads[i]) - start]
  }

  ghost predicate Inv(s: Out) {
    && Shows(s.ring, s.head, s.start, s.printed) && s.start <= s.tail <= s.head
    && Fetched(s.start, s.printed, s.head, s.from, s.out, s.heads)
    && (s.pumping ==> s.tail <= s.from && At(s) <= s.end <= s.head && s.end <= s.from + OUT_SIZE)
  }

  lemma SubLess(head: nat, tail: nat)
    requires tail <= head
    ensures Sub32(head % WORD, tail % WORD) <= head - tail
    ensures (head - Sub32(head % WORD, tail % WORD)) % WORD == tail % WORD
  {
    assert (head % WORD - tail % WORD) % WORD == (head - tail) % WORD;
  }

  /** The word the host resumes at, and that it is no earlier than the stored tail. */
  lemma StartIs(head: nat, tail: nat)
    requires tail <= head
    ensures tail <= Start(head, tail) <= head <= Start(head, tail) + OUT_SIZE
    ensures Start(head, tail) % WORD == Oldest(head % WORD, tail % WORD)
  {
    SubLess(head, tail);
  }

  lemma PrintKeeps(s: Out, b: Byte)
    requires Inv(s)
    ensures Inv(Apply(s, Print(b)))
  {
    OutSlot(s.head % WORD, s.head);
    PrintShows(s.ring, s.head, s.start, s.printed, b);
  }

  /** The byte at any position below the head is the last one printed to its place. */
  lemma ShowsLatest(ring: seq<Byte>, head: nat, start: nat, printed: seq<Byte>, p: nat)
    requires Shows(ring, head, start, printed) && start <= p < head
    ensures ring[p % OUT_SIZE] == printed[Latest(p, head) - start]
  {
    assert OutAt(ring, Latest(p, head)) == printed[Latest(p, head) - start];
  }

  lemma FetchedMore(start: nat, printed: seq<Byte>, head: nat, from: nat, out: seq<Byte>, heads: seq<nat>, b: Byte)
    requires Fetched(start, printed, head, from, out, heads) && from + |out| < head
    requires b == printed[Latest(from + |out|, head) - start]
    ensures Fetched(start, printed, head, from, out + [b], heads + [head])
  {
  }

  lemma Below(p: nat, end: nat)
    requires p <= end && p % WORD != end % WORD
    ensures p < end
  {
  }

  lemma FetchKeeps(s: Out)
    requires Inv(s) && Enabled(s, Fetch)
    ensures Inv(Apply(s, Fetch))
  {
    var p := At(s);
    OutSlot(p % WORD, p);
    Below(p, s.end);
    ShowsLatest(s.ring, s.head, s.start, s.printed, p);
    FetchedMore(s.start, s.printed, s.head, s.from, s.out, s.heads, s.ring[p % WORD % OUT_SIZE]);
  }

  lemma InvStep(s: Out, step: Step)
    requires Inv(s) && Enabled(s, step)
    ensures Inv(Apply(s, step))
  {
    match step
    case Print(b) => PrintKeeps(s, b);
    case Begin => StartIs(s.head, s.tail);
    case Fetch => FetchKeeps(s);
    case Close =>
  }

  // ----- Whole runs -----

  ghost predicate CanRun(s: Out, steps: seq<Step>)
    decreases |steps|
  {
    steps == [] || (|s.ring| == OUT_SIZE && Enabled(s, steps[0]) && CanRun(Apply(s, steps[0]), steps[1..]))
  }

  ghost function Exec(s: Out, steps: seq<Step>): Out
    requires CanRun(s, steps)
    decreases |steps|
  {
    if steps == [] then s else Exec(Apply(s, steps[0]), steps[1..])
  }

  lemma {:induction false} RunInv(s: Out, steps: seq<Step>)
    requires Inv(s) && CanRun(s, steps)
    ensures Inv(Exec(s, steps))
    decreases |steps|
  {
    if steps == [] {
    } else {
      InvStep(s, steps[0]);
      RunInv(Apply(s, steps[0]), steps[1..]);
    }
  }

  /** Whatever the interleaving, the i-th byte of a pump is the last one the guest had printed to
      its place when it was read: the byte printed at that position exactly until the guest is a
      whole ring past it. A pump throughout which the guest stays within a ring of where it
      resumed returns a run of what was printed, without a gap. */
  lemma PumpWhilePrinting(s0: Out, steps: seq<Step>)
    requires Init(s0) && CanRun(s0, steps)
    ensures var s := Exec(s0, steps);
            && Fetched(s.start, s.printed, s.head, s.from, s.out, s.heads)
            && (s.head <= s.from + OUT_SIZE ==> s.out == s.printed[s.from - s.start..s.from - s.start + |s.out|])
  {
    RunInv(s0, steps);
    var s := Exec(s0, steps);
    if s.head <= s.from + OUT_SIZE {
      Gapless(s.start, s.printed, s.head, s.from, s.out, s.heads);
    }
  }

  lemma Gapless(start: nat, printed: seq<Byte>, head: nat, from: nat, out: seq<Byte>, heads: seq<nat>)
    requires Fetched(start, printed, head, from, out, heads) && head <= from + OUT_SIZE
    ensures out == printed[from - start..from - start + |out|]
  {
    var part := printed[from - start..from - start + |out|];
    forall i | 0 <= i < |out| ensures out[i] == part[i] {
      assert out[i] == printed[Latest(from + i, heads[i]) - start];
    }
  }

  // ----- A pump the guest does not print into -----

  function Fetches(n: nat): seq<Step> {
    seq(n, i => Fetch)
  }

  lemma RunOne(s: Out, step: Step, rest: seq<Step>)
    requires |s.ring| == OUT_SIZE && Enabled(s, step) && CanRun(Apply(s, step), rest)
    ensures CanRun(s, [step] + rest) && Exec(s, [step] + rest) == Exec(Apply(s, step), rest)
  {
    assert ([step] + rest)[1..] == rest;
  }

  lemma {:induction false} QuietFetches(s: Out, n: nat, w: nat)
    requires |s.ring| == OUT_SIZE && s.pumping && Wraps(w, s.from) && Pumped(s.ring, w, |s.out|, s.out)
    requires At(s) + n <= s.end <= s.from + OUT_SIZE
    ensures CanRun(s, Fetches(n) + [Close])
    ensures var t := Exec(s, Fetches(n) + [Close]);
            && Pumped(s.ring, w, |s.out| + n, t.out) && t.from == s.from
            && t.tail == if t.out == [] then s.tail else s.from + |t.out|
    decreases n
  {
    if n == 0 {
      RunOne(s, Close, []);
      assert Fetches(0) + [Close] == [Close] + [];
    } else {
      var p := At(s);
      Differ(p, s.end);
      OutSlot(p % WORD, p);
      OutAtWraps(s.ring, w, s.from, |s.out|);
      QuietFetches(Apply(s, Fetch), n - 1, w);
      RunOne(s, Fetch, Fetches(n - 1) + [Close]);
      assert Fetches(n) + [Close] == [Fetch] + (Fetches(n - 1) + [Close]);
    }
  }

  lemma Differ(p: nat, q: nat)
    requires p < q < p + WORD
    ensures p % WORD != q % WORD
  {
  }

  /** Without prints in between, the steps of a pump return what the pump's loop does and store
      the same tail. */
  lemma QuietPump(s: Out, room: nat, w: nat, n: nat)
    requires Inv(s) && !s.pumping
    requires w == Oldest(s.head % WORD, s.tail % WORD) && n == Min(room, Sub32(s.head % WORD, w))
    ensures CanRun(s, [Begin] + (Fetches(n) + [Close]))
    ensures var t := Exec(s, [Begin] + (Fetches(n) + [Close]));
            Pumped(s.ring, w, n, t.out) && t.tail % WORD == if n > 0 then (w + n) % WORD else s.tail % WORD
  {
    var a := Apply(s, Begin);
    StartIs(s.head, s.tail);
    Gap(s.head % WORD, s.head, w, a.from);
    QuietFetches(a, n, w);
    RunOne(s, Begin, Fetches(n) + [Close]);
    TailWord(a.from, w, n);
  }

  lemma TailWord(p: nat, w: nat, n: nat)
    requires Wraps(w, p)
    ensures (p + n) % WORD == (w + n) % WORD
  {
  }
}
