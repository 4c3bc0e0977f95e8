/** The receive ring as a protocol: the host fills and publishes while the guest reads. */
module NetFlow {
  import opened NetRing
  import opened Words

  /** Positions are counted without bound; the words in memory hold them modulo 2^32. The host
      owns head, the guest tail. While the host writes, next is its private head, seen the tail
      it read once and room the length of the record it has tested the ring for. The last three
      record the frames published, laid and read. */
  datatype State = State(
    ring: Ring, head: nat, tail: nat, writing: bool, next: nat, seen: nat, room: nat,
    sent: seq<Frame>, staged: seq<Frame>, got: seq<Frame>)

  datatype Step =
    | Open                                  // the host reads both indices
    | Test(len: nat)                        // the one test for fullness, before a record is written
    | Scribble(o: nat, bytes: seq<Byte>)    // part of that record, in any order
    | Commit(f: Frame)                      // the whole record is in place
    | Publish
    | Drop                                  // a refusal: head is not written
    | Read                                  // the guest takes one record

  ghost predicate Init(s: State) {
    |s.ring| == SIZE && s.head == s.tail && s.head % 4 == 0 && !s.writing && s.sent == s.staged == s.got == []
  }

  function Held(s: State): nat {
    Sub32(s.head % WORD, s.tail % WORD)
  }

  ghost predicate Enabled(s: State, step: Step)
    requires |s.ring| == SIZE
  {
    match step
    case Open => !s.writing && Held(s) <= SIZE
    case Test(len) =>
      && s.writing && s.room == 0 && 0 < len <= MAX_FRAME
      && Sub32(s.next % WORD, s.seen % WORD) + Record(len) <= SIZE
    case Scribble(o, bytes) => s.writing && o + |bytes| <= s.room <= SIZE
    case Commit(f) => s.writing && s.room == Record(|f|) && IsRecord(View(s.ring, s.next, s.room), f)
    case Publish => s.writing && s.room == 0 && s.staged != []
    case Drop => s.writing
    case Read => Held(s) != 0
  }

  ghost function Apply(s: State, step: Step): State
    requires |s.ring| == SIZE && Enabled(s, step)
  {
    match step
    case Open => s.(writing := true, next := s.head, seen := s.tail, room := 0, staged := [])
    case Test(len) => s.(room := Record(len))
    case Scribble(o, bytes) => s.(ring := Poke(s.ring, s.next + o, bytes))
    case Commit(f) => s.(next := s.next + s.room, room := 0, staged := s.staged + [f])
    case Publish => s.(writing := false, head := s.next, sent := s.sent + s.staged)
    case Drop => s.(writing := false)
    case Read => ReadOne(s)
  }

  /** The guest believes the length word at its tail. */
  function ReadOne(s: State): State
    requires |s.ring| == SIZE
  {
    var len := LengthAt(View(s.ring, s.tail, 4), 0);
    s.(tail := s.tail + Record(len), got := s.got + [View(s.ring, s.tail + 4, len)])
  }

  /** The published part: unread frames are the ones published and not yet read, in order. */
  ghost predicate QueueOk(ring: Ring, tail: nat, head: nat, sent: seq<Frame>, got: seq<Frame>) {
    |ring| == SIZE && got <= sent && tail <= head <= tail + SIZE && Holds(View(ring, tail, head - tail), sent[|got|..])
  }

  /** The staged part: its records follow the published ones, and they and the record being
      written end within a turn of the tail that was read. */
  ghost predicate StageOk(ring: Ring, head: nat, next: nat, seen: nat, room: nat, tail: nat, staged: seq<Frame>) {
    && |ring| == SIZE && head <= next && next + room <= seen + SIZE && seen <= tail
    && Holds(View(ring, head, next - head), staged)
  }

  ghost predicate Inv(s: State) {
    && QueueOk(s.ring, s.tail, s.head, s.sent, s.got)
    && (s.writing ==> StageOk(s.ring, s.head, s.next, s.seen, s.room, s.tail, s.staged))
  }

  // ----- Each step -----

  lemma HeldCounts(s: State)
    requires Inv(s)
    ensures Held(s) == s.head - s.tail
  {
    Gap(s.head % WORD, s.head, s.tail % WORD, s.tail);
  }

  lemma ScribbleElsewhere(ring: Ring, q: nat, n: nat, p: nat, bytes: seq<Byte>)
    requires |ring| == SIZE && q + n <= p && p - q + |bytes| <= SIZE
    ensures View(Poke(ring, p, bytes), q, n) == View(ring, q, n)
  {
    PokeElsewhere(ring, q, p - q, bytes);
    ViewSlice(ring, q, p - q, 0, n);
    ViewSlice(Poke(ring, p, bytes), q, p - q, 0, n);
  }

  /** The code's test, on two words, bounds the record in true positions. */
  lemma TestKeeps(s: State, len: nat)
    requires Inv(s) && Enabled(s, Test(len))
    ensures Inv(Apply(s, Test(len))) && s.next + Record(len) <= s.seen + SIZE
  {
    Gap(s.next % WORD, s.next, s.seen % WORD, s.seen);
  }

  lemma QueueFrame(ring: Ring, ring': Ring, tail: nat, head: nat, sent: seq<Frame>, got: seq<Frame>)
    requires QueueOk(ring, tail, head, sent, got) && |ring'| == SIZE
    requires View(ring', tail, head - tail) == View(ring, tail, head - tail)
    ensures QueueOk(ring', tail, head, sent, got)
  {
  }

  lemma StageFrame(ring: Ring, ring': Ring, head: nat, next: nat, seen: nat, room: nat, tail: nat, staged: seq<Frame>)
    requires StageOk(ring, head, next, seen, room, tail, staged) && |ring'| == SIZE
    requires View(ring', head, next - head) == View(ring, head, next - head)
    ensures StageOk(ring', head, next, seen, room, tail, staged)
  {
  }

  lemma RingReplaced(s: State, ring': Ring)
    requires Inv(s) && s.writing && |ring'| == SIZE
    requires View(ring', s.tail, s.head - s.tail) == View(s.ring, s.tail, s.head - s.tail)
    requires View(ring', s.head, s.next - s.head) == View(s.ring, s.head, s.next - s.head)
    ensures Inv(s.(ring := ring'))
  {
    QueueFrame(s.ring, ring', s.tail, s.head, s.sent, s.got);
    StageFrame(s.ring, ring', s.head, s.next, s.seen, s.room, s.tail, s.staged);
  }

  /** No byte the guest has yet to read is overwritten, however far it has read by now. */
  lemma ScribbleKeeps(s: State, o: nat, bytes: seq<Byte>)
    requires Inv(s) && Enabled(s, Scribble(o, bytes))
    ensures View(Apply(s, Scribble(o, bytes)).ring, s.tail, s.head - s.tail) == View(s.ring, s.tail, s.head - s.tail)
    ensures Inv(Apply(s, Scribble(o, bytes)))
  {
    ScribbleElsewhere(s.ring, s.tail, s.head - s.tail, s.next + o, bytes);
    ScribbleElsewhere(s.ring, s.head, s.next - s.head, s.next + o, bytes);
    RingReplaced(s, Apply(s, Scribble(o, bytes)).ring);
  }

  lemma StageCommit(ring: Ring, head: nat, next: nat, seen: nat, room: nat, tail: nat, staged: seq<Frame>, f: Frame)
    requires StageOk(ring, head, next, seen, room, tail, staged) && IsRecord(View(ring, next, room), f)
    ensures StageOk(ring, head, next + room, seen, 0, tail, staged + [f])
  {
    ViewJoin(ring, head, next - head, room);
    HoldsAppend(View(ring, head, next - head), staged, View(ring, next, room), f);
  }

  lemma CommitKeeps(s: State, f: Frame)
    requires Inv(s) && Enabled(s, Commit(f))
    ensures Inv(Apply(s, Commit(f)))
  {
    StageCommit(s.ring, s.head, s.next, s.seen, s.room, s.tail, s.staged, f);
  }

  lemma QueuePublish(ring: Ring, tail: nat, head: nat, next: nat, seen: nat, sent: seq<Frame>,
                     staged: seq<Frame>, got: seq<Frame>)
    requires QueueOk(ring, tail, head, sent, got) && StageOk(ring, head, next, seen, 0, tail, staged)
    ensures QueueOk(ring, tail, next, sent + staged, got)
  {
    ViewsJoin(ring, tail, head - tail, next - head, sent[|got|..], staged);
    assert (sent + staged)[|got|..] == sent[|got|..] + staged;
  }

  lemma ViewsJoin(ring: Ring, p: nat, n: nat, m: nat, fs: seq<Frame>, gs: seq<Frame>)
    requires |ring| == SIZE && Holds(View(ring, p, n), fs) && Holds(View(ring, p + n, m), gs)
    ensures Holds(View(ring, p, n + m), fs + gs)
  {
    ViewJoin(ring, p, n, m);
    HoldsJoin(View(ring, p, n), fs, View(ring, p + n, m), gs);
  }

  lemma PublishKeeps(s: State)
    requires Inv(s) && Enabled(s, Publish)
    ensures Inv(Apply(s, Publish))
  {
    QueuePublish(s.ring, s.tail, s.head, s.next, s.seen, s.sent, s.staged, s.got);
  }

  /** A read gets the oldest frame not yet read. */
  lemma ReadKeeps(s: State)
    requires Inv(s) && Enabled(s, Read)
    ensures Inv(ReadOne(s)) && |s.got| < |s.sent| && ReadOne(s).got == s.got + [s.sent[|s.got|]]
  {
    HeldCounts(s);
    var (n, rest) := (s.head - s.tail, s.sent[|s.got|..]);
    var b := View(s.ring, s.tail, n);
    assert rest != [];
    RecordParts(b, rest[0]);
    var r := Record(|rest[0]|);
    ViewSlice(s.ring, s.tail, n, 0, 4);
    ViewSlice(s.ring, s.tail, n, 4, |rest[0]|);
    ViewSlice(s.ring, s.tail, n, r, n - r);
    assert LengthAt(View(s.ring, s.tail, 4), 0) == |rest[0]|;
    assert b[r..n] == b[r..];
    assert s.sent[|s.got| + 1..] == rest[1..];
  }

  // ----- Whole runs -----

  ghost predicate CanRun(s: State, steps: seq<Step>)
    decreases |steps|
  {
    steps == [] || (|s.ring| == SIZE && Enabled(s, steps[0]) && CanRun(Apply(s, steps[0]), steps[1..]))
  }

  ghost function Exec(s: State, steps: seq<Step>): State
    requires CanRun(s, steps)
    decreases |steps|
  {
    if steps == [] then s else Exec(Apply(s, steps[0]), steps[1..])
  }

  lemma OpenKeeps(s: State)
    requires Inv(s) && Enabled(s, Open)
    ensures Inv(Apply(s, Open))
  {
  }

  lemma InvStep(s: State, step: Step)
    requires Inv(s) && Enabled(s, step)
    ensures Inv(Apply(s, step))
  {
    match step
    case Open => OpenKeeps(s);
    case Test(len) => TestKeeps(s, len);
    case Scribble(o, bytes) => ScribbleKeeps(s, o, bytes);
    case Commit(f) => CommitKeeps(s, f);
    case Publish => PublishKeeps(s);
    case Drop =>
    case Read => ReadKeeps(s);
  }

  lemma {:induction false} RunInv(s: State, steps: seq<Step>)
    requires Inv(s) && CanRun(s, steps)
    ensures Inv(Exec(s, steps))
    decreases |steps|
  {
    if steps == [] {
    } else {
      InvStep(s, steps[0]);
      RunInv(Apply(s, steps[0]), steps[1..]);
    }
  }

  /** Whatever the interleaving, the guest has read exactly a prefix of the frames published,
      the rest is in the ring in order, and the index words never differ by more than it. */
  lemma PrefixDelivered(s0: State, steps: seq<Step>)
    requires Init(s0) && CanRun(s0, steps)
    ensures var s := Exec(s0, steps);
            && |s.ring| == SIZE && s.got <= s.sent && Held(s) <= SIZE
            && Decode(View(s.ring, s.tail, Held(s))) == Frames(s.sent[|s.got|..])
            && (Held(s) == 0 <==> s.got == s.sent)
  {
    assert View(s0.ring, s0.tail, 0) == [] && s0.sent[0..] == [];
    RunInv(s0, steps);
    var s := Exec(s0, steps);
    HeldCounts(s);
    var rest := s.sent[|s.got|..];
    RoundTrip(View(s.ring, s.tail, Held(s)), rest);
    assert rest == [] <==> s.got == s.sent;
  }

  // ----- A delivery is such a run -----

  /** The test and the writes of a record in three pieces, one behind the other. */
  function Writing(f: Frame, w: seq<Byte>, x: seq<Byte>, y: seq<Byte>): seq<Step> {
    [Test(|f|), Scribble(0, w), Scribble(|w|, x), Scribble(|w| + |x|, y), Commit(f)]
  }

  /** The writes of one record: its length word, and its frame split where the ring wraps. */
  function RecordSteps(p: nat, f: Frame): seq<Step>
    requires 0 < |f| <= MAX_FRAME
  {
    var cut := First(Slot(p + 4), f);
    Writing(f, WordBytes(|f|), f[..cut], f[cut..])
  }

  lemma {:induction false} RunOn(s: State, a: seq<Step>, b: seq<Step>)
    requires CanRun(s, a) && CanRun(Exec(s, a), b)
    ensures CanRun(s, a + b) && Exec(s, a + b) == Exec(Exec(s, a), b)
    decreases |a|
  {
    if a == [] {
      assert a + b == b;
    } else {
      RunOn(Apply(s, a[0]), a[1..], b);
      assert (a + b)[1..] == a[1..] + b;
    }
  }

  lemma RunOne(s: State, step: Step, rest: seq<Step>)
    requires |s.ring| == SIZE && Enabled(s, step) && CanRun(Apply(s, step), rest)
    ensures CanRun(s, [step] + rest) && Exec(s, [step] + rest) == Exec(Apply(s, step), rest)
  {
    assert ([step] + rest)[1..] == rest;
  }

  /** Pieces written one behind the other make up one write. */
  lemma Pieces(ring: Ring, p: nat, w: seq<Byte>, x: seq<Byte>, y: seq<Byte>)
    requires |ring| == SIZE && |w| + |x| + |y| <= SIZE
    ensures Poke(Poke(Poke(ring, p, w), p + |w|, x), p + (|w| + |x|), y) == Poke(ring, p, w + x + y)
  {
    PokePoke(ring, p, w, x);
    PokePoke(ring, p, w + x, y);
  }

  /** Five steps, each from the state the one before led to. */
  lemma FiveSteps(s: State, v: Step, a: State, w: Step, b: State, x: Step, c: State, y: Step, d: State, z: Step,
                  e: State)
    requires |s.ring| == SIZE && Enabled(s, v) && a == Apply(s, v)
    requires |a.ring| == SIZE && Enabled(a, w) && b == Apply(a, w)
    requires |b.ring| == SIZE && Enabled(b, x) && c == Apply(b, x)
    requires |c.ring| == SIZE && Enabled(c, y) && d == Apply(c, y)
    requires |d.ring| == SIZE && Enabled(d, z) && e == Apply(d, z)
    ensures CanRun(s, [v, w, x, y, z]) && Exec(s, [v, w, x, y, z]) == e
  {
    RunOne(d, z, []);
    RunOne(c, y, [z]);
    RunOne(b, x, [y, z]);
    RunOne(a, w, [x, y, z]);
    RunOne(s, v, [w, x, y, z]);
  }

  /** The ring once the record is written, and the state once it is committed. */
  ghost function WithRecord(s: State, f: Frame): State
    requires |s.ring| == SIZE && 0 < |f| <= MAX_FRAME
  {
    s.(ring := Poke(s.ring, s.next, WordBytes(|f|) + f), next := s.next + Record(|f|), room := 0,
       staged := s.staged + [f])
  }

  ghost function Wrote(s: State, o: nat, bytes: seq<Byte>): State
    requires |s.ring| == SIZE && |bytes| <= SIZE
  {
    s.(ring := Poke(s.ring, s.next + o, bytes))
  }

  lemma Writes(s: State, o: nat, bytes: seq<Byte>)
    requires |s.ring| == SIZE && s.writing && o + |bytes| <= s.room <= SIZE
    ensures Enabled(s, Scribble(o, bytes)) && Apply(s, Scribble(o, bytes)) == Wrote(s, o, bytes)
  {
  }

  lemma Ready(s: State, f: Frame, d: State)
    requires |s.ring| == SIZE && s.writing && s.room == Record(|f|) && 0 < |f| <= MAX_FRAME
    requires d == s.(ring := Poke(s.ring, s.next, WordBytes(|f|) + f))
    ensures Enabled(d, Commit(f)) && Apply(d, Commit(f)) == WithRecord(s, f)
  {
    PokeRecord(s.ring, s.next, f);
  }

  lemma Cut(f: Frame, n: nat)
    requires n <= |f|
    ensures f[..n] + f[n..] == f
  {
  }

  lemma RecordWrites(a: State, f: Frame, w: seq<Byte>, x: seq<Byte>, y: seq<Byte>, b: State, c: State, d: State)
    requires |a.ring| == SIZE && a.writing && a.room == Record(|f|) && 0 < |f| <= MAX_FRAME
    requires w == WordBytes(|f|) && x + y == f
    requires b == Wrote(a, 0, w) && c == Wrote(b, |w|, x) && d == Wrote(c, |w| + |x|, y)
    ensures Enabled(a, Scribble(0, w)) && b == Apply(a, Scribble(0, w))
    ensures Enabled(b, Scribble(|w|, x)) && c == Apply(b, Scribble(|w|, x))
    ensures Enabled(c, Scribble(|w| + |x|, y)) && d == Apply(c, Scribble(|w| + |x|, y))
    ensures d == a.(ring := Poke(a.ring, a.next, WordBytes(|f|) + f))
  {
    Writes(a, 0, w);
    Writes(b, |w|, x);
    Writes(c, |w| + |x|, y);
    Pieces(a.ring, a.next, w, x, y);
    assert w + x + y == w + f;
  }

  lemma RecordFrom(s: State, f: Frame, w: seq<Byte>, x: seq<Byte>, y: seq<Byte>)
    requires |s.ring| == SIZE && Enabled(s, Test(|f|)) && w == WordBytes(|f|) && x + y == f
    ensures CanRun(s, Writing(f, w, x, y)) && Exec(s, Writing(f, w, x, y)) == WithRecord(s, f)
  {
    var a := Apply(s, Test(|f|));
    var b := Wrote(a, 0, w);
    var c := Wrote(b, |w|, x);
    var d := Wrote(c, |w| + |x|, y);
    RecordWrites(a, f, w, x, y, b, c, d);
    Ready(a, f, d);
    FiveSteps(s, Test(|f|), a, Scribble(0, w), b, Scribble(|w|, x), c, Scribble(|w| + |x|, y), d, Commit(f),
              WithRecord(s, f));
  }

  /** Once the code's test has passed, the writes it makes are steps of the protocol, the whole
      record is then in place, and the ring is as the split copies leave it. */
  lemma RecordRuns(s: State, f: Frame)
    requires |s.ring| == SIZE && Enabled(s, Test(|f|))
    ensures CanRun(s, RecordSteps(s.next, f)) && Exec(s, RecordSteps(s.next, f)) == WithRecord(s, f)
  {
    var cut := First(Slot(s.next + 4), f);
    Cut(f, cut);
    RecordFrom(s, f, WordBytes(|f|), f[..cut], f[cut..]);
  }

  function BatchSteps(p: nat, fs: seq<Frame>): seq<Step>
    requires Legal(fs)
    decreases |fs|
  {
    if fs == [] then [] else RecordSteps(p, fs[0]) + BatchSteps(p + Record(|fs[0]|), fs[1..])
  }

  /** The state once a batch is laid. */
  ghost predicate Staged(s: State, fs: seq<Frame>, t: State)
  {
    && LaidOn(s.ring, t.ring, s.next, fs) && |t.ring| == SIZE
    && t == s.(ring := t.ring, next := s.next + Total(fs), staged := s.staged + fs)
  }

  lemma StagedFields(s: State, fs: seq<Frame>, f: Frame, rest: seq<Frame>, u: State, t: State)
    requires s.room == 0 && fs == [f] + rest
    requires u == s.(ring := u.ring, next := s.next + Record(|f|), room := 0, staged := s.staged + [f])
    requires t == u.(ring := t.ring, next := u.next + Total(rest), staged := u.staged + rest)
    ensures t == s.(ring := t.ring, next := s.next + Total(fs), staged := s.staged + fs)
  {
    assert s.staged + [f] + rest == s.staged + fs;
    assert fs[0] == f && fs[1..] == rest;
  }

  lemma StagedNext(s: State, fs: seq<Frame>, f: Frame, rest: seq<Frame>, u: State, t: State)
    requires |s.ring| == SIZE && s.room == 0 && 0 < |f| <= MAX_FRAME && u == WithRecord(s, f) && fs == [f] + rest
    requires Staged(u, rest, t)
    ensures Staged(s, fs, t)
  {
    LaidFirst(s.ring, u.ring, t.ring, s.next, f, u.next, rest, fs);
    StagedFields(s, fs, f, rest, u, t);
  }

  lemma RunVia(s: State, a: seq<Step>, t: State, r: seq<Step>, e: State, steps: seq<Step>)
    requires CanRun(s, a) && Exec(s, a) == t && CanRun(t, r) && Exec(t, r) == e && steps == a + r
    ensures CanRun(s, steps) && Exec(s, steps) == e
  {
    RunOn(s, a, r);
  }

  lemma TestPasses(s: State, len: nat)
    requires |s.ring| == SIZE && s.writing && s.room == 0 && 0 < len <= MAX_FRAME
    requires s.seen <= s.next && s.next + Record(len) <= s.seen + SIZE
    ensures Enabled(s, Test(len))
  {
    Gap(s.next % WORD, s.next, s.seen % WORD, s.seen);
  }

  lemma {:induction false} BatchRuns(s: State, fs: seq<Frame>, steps: seq<Step>)
    requires |s.ring| == SIZE && s.writing && s.room == 0 && Legal(fs) && steps == BatchSteps(s.next, fs)
    requires s.seen <= s.next && s.next + Total(fs) <= s.seen + SIZE
    ensures CanRun(s, steps) && Staged(s, fs, Exec(s, steps))
    decreases |fs|
  {
    if fs == [] {
      assert s.staged + fs == s.staged;
      LaidNone(s.ring, s.next);
    } else {
      TestPasses(s, |fs[0]|);
      RecordRuns(s, fs[0]);
      var (f, rest) := (fs[0], fs[1..]);
      var (a, t, r) := (RecordSteps(s.next, f), WithRecord(s, f), BatchSteps(s.next + Record(|f|), rest));
      BatchRuns(t, rest, r);
      RunVia(s, a, t, r, Exec(t, r), steps);
      assert fs == [f] + rest;
      StagedNext(s, fs, f, rest, t, Exec(t, r));
    }
  }

  /** The state once frames are delivered. */
  ghost predicate DeliveredTo(s: State, fs: seq<Frame>, t: State)
  {
    && LaidOn(s.ring, t.ring, s.head, fs) && t.head == s.head + Total(fs) && t.tail == s.tail
    && t.sent == s.sent + fs && t.got == s.got && !t.writing
  }

  lemma DeliveryEnds(s: State, fs: seq<Frame>, a: State, b: State)
    requires |s.ring| == SIZE && Legal(fs) && fs != []
    requires a == s.(writing := true, next := s.head, seen := s.tail, room := 0, staged := []) && Staged(a, fs, b)
    ensures |b.ring| == SIZE && Enabled(b, Publish) && DeliveredTo(s, fs, Apply(b, Publish))
  {
    assert [] + fs == fs;
  }

  lemma DeliverySteps(s: State, fs: seq<Frame>, steps: seq<Step>)
    requires Inv(s) && !s.writing && fs != [] && Legal(fs) && Held(s) + Total(fs) <= SIZE
    requires steps == [Open] + (BatchSteps(s.head, fs) + [Publish])
    ensures CanRun(s, steps) && DeliveredTo(s, fs, Exec(s, steps))
  {
    HeldCounts(s);
    var (a, batch) := (Apply(s, Open), BatchSteps(s.head, fs));
    BatchRuns(a, fs, batch);
    var b := Exec(a, batch);
    DeliveryEnds(s, fs, a, b);
    RunOne(b, Publish, []);
    RunOn(a, batch, [Publish]);
    RunOne(s, Open, batch + [Publish]);
  }

  lemma DeliveryWords(s: State, fs: seq<Frame>, t: State)
    requires DeliveredTo(s, fs, t)
    ensures LaidOn(s.ring, t.ring, s.head % WORD, fs) && t.head % WORD == (s.head % WORD + Total(fs)) % WORD
  {
    LaidWraps(s.ring, t.ring, s.head, s.head % WORD, fs);
    SameStep(s.head, t.head, s.head % WORD, s.head % WORD + Total(fs), Total(fs));
  }

  function DeliveryRun(p: nat, fs: seq<Frame>): seq<Step>
    requires Legal(fs)
  {
    [Open] + (BatchSteps(p, fs) + [Publish])
  }

  /** A whole delivery: from any state between two, frames that fit are laid by those writes and
      then published. The ring and the head word end as the delivery's method leaves them, which
      knows the positions only modulo 2^32. */
  lemma DeliveryRuns(s: State, fs: seq<Frame>)
    requires Inv(s) && !s.writing && fs != [] && Legal(fs) && Held(s) + Total(fs) <= SIZE
    ensures CanRun(s, DeliveryRun(s.head, fs))
    ensures var t := Exec(s, DeliveryRun(s.head, fs));
            && DeliveredTo(s, fs, t) && LaidOn(s.ring, t.ring, s.head % WORD, fs)
            && t.head % WORD == (s.head % WORD + Total(fs)) % WORD
  {
    DeliverySteps(s, fs, DeliveryRun(s.head, fs));
    DeliveryWords(s, fs, Exec(s, DeliveryRun(s.head, fs)));
  }

  /** So a delivery's method, which leaves the ring with those records laid at its head, leaves
      just the ring that the protocol's steps do. */
  lemma PutIsDelivery(s: State, fs: seq<Frame>, rx: Ring)
    requires Inv(s) && !s.writing && fs != [] && Legal(fs) && Held(s) + Total(fs) <= SIZE
    requires LaidOn(s.ring, rx, s.head % WORD, fs)
    ensures CanRun(s, DeliveryRun(s.head, fs)) && Exec(s, DeliveryRun(s.head, fs)).ring == rx
  {
    DeliveryRuns(s, fs);
    LaidUnique(s.ring, Exec(s, DeliveryRun(s.head, fs)).ring, rx, s.head % WORD, fs);
  }
}
