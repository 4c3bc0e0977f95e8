/** The network rings in guest memory: free-running 32-bit indices over a circular byte
    buffer; records of a length word, a frame and padding. */
module NetRing {
  import opened Splicing
  import opened Words

  type Byte = b: nat | b < 256

  type Frame = seq<Byte>

  type Ring = seq<Byte>

  const SIZE: nat := 0x2_0000       // 128 KiB, both rings
  const MAX_FRAME: nat := 1514

  function Slot(p: nat): (i: nat)
    ensures i < SIZE
  {
    p % SIZE
  }

  /** How far slot i lies past position p, going round. */
  function Ahead(i: nat, p: nat): (d: nat)
    requires i < SIZE
    ensures d < SIZE && Slot(p + d) == i
  {
    if i >= Slot(p) then i - Slot(p) else i + SIZE - Slot(p)
  }

  lemma SlotPlus(p: nat, d: nat)
    requires d < SIZE
    ensures Slot(p + d) == if Slot(p) + d < SIZE then Slot(p) + d else Slot(p) + d - SIZE
  {
  }

  lemma AheadOf(p: nat, d: nat)
    requires d < SIZE
    ensures Ahead(Slot(p + d), p) == d
  {
  }

  function Record(len: nat): (n: nat)
    ensures 4 + len <= n < 8 + len
  {
    4 + (len + 3) / 4 * 4
  }

  function WordOf(b0: Byte, b1: Byte, b2: Byte, b3: Byte): nat {
    b0 + 0x100 * b1 + 0x1_0000 * b2 + 0x100_0000 * b3
  }

  function WordBytes(w: nat): (s: seq<Byte>)
    requires w < WORD
    ensures |s| == 4 && WordOf(s[0], s[1], s[2], s[3]) == w
  {
    var a := w / 0x100;
    var b := a / 0x100;
    [w % 0x100, a % 0x100, b % 0x100, b / 0x100]
  }

  /** A length as it lies in the buffer, lowest byte first. */
  lemma LengthIs(b: seq<Byte>, p: nat, len: nat)
    requires p + 4 <= |b| && len <= 1514
    ensures LengthAt(b, p) == len <==>
            b[p] == len % 256 && b[p + 1] == len / 256 && b[p + 2] == 0 && b[p + 3] == 0
  {
  }

  // ----- Flat bytes -----

  lemma SliceSlice<T>(s: seq<T>, a: nat, b: nat, c: nat, d: nat)
    requires a <= b <= |s| && c <= d <= b - a
    ensures s[a..b][c..d] == s[a + c..a + d]
  {
    var (l, r) := (s[a..b][c..d], s[a + c..a + d]);
    assert forall i :: 0 <= i < d - c ==> l[i] == r[i];
  }

  function LengthAt(b: seq<Byte>, p: nat): nat
    requires p + 4 <= |b|
  {
    WordOf(b[p], b[p + 1], b[p + 2], b[p + 3])
  }

  /** A frame's record: its length word, its bytes, and padding of any content. */
  ghost predicate IsRecord(r: seq<Byte>, f: Frame) {
    0 < |f| <= MAX_FRAME && |r| == Record(|f|) && LengthAt(r, 0) == |f| && r[4..4 + |f|] == f
  }

  function Total(fs: seq<Frame>): nat {
    if fs == [] then 0 else Record(|fs[0]|) + Total(fs[1..])
  }

  lemma {:induction false} TotalAppend(fs: seq<Frame>, f: Frame)
    ensures Total(fs + [f]) == Total(fs) + Record(|f|)
  {
    if fs == [] {
      assert fs + [f] == [f];
    } else {
      assert (fs + [f])[1..] == fs[1..] + [f];
      TotalAppend(fs[1..], f);
    }
  }

  /** The bytes are the records of fs, one after the other. */
  ghost predicate Holds(b: seq<Byte>, fs: seq<Frame>)
    decreases |fs|
  {
    if fs == [] then b == []
    else
      var n := Record(|fs[0]|);
      n <= |b| && IsRecord(b[..n], fs[0]) && Holds(b[n..], fs[1..])
  }

  lemma JoinParts<T>(a: seq<T>, b: seq<T>, n: nat)
    requires n <= |a|
    ensures (a + b)[..n] == a[..n] && (a + b)[n..] == a[n..] + b
  {
  }

  lemma {:induction false} HoldsJoin(a: seq<Byte>, fs: seq<Frame>, b: seq<Byte>, gs: seq<Frame>)
    requires Holds(a, fs) && Holds(b, gs)
    ensures Holds(a + b, fs + gs)
    decreases |fs|
  {
    if fs == [] {
      assert a + b == b && fs + gs == gs;
    } else {
      var n := Record(|fs[0]|);
      HoldsJoin(a[n..], fs[1..], b, gs);
      JoinParts(a, b, n);
      JoinParts(fs, gs, 1);
    }
  }

  lemma HoldsCons(r: seq<Byte>, f: Frame, b: seq<Byte>, fs: seq<Frame>, all: seq<Frame>)
    requires IsRecord(r, f) && Holds(b, fs) && all == [f] + fs
    ensures Holds(r + b, all)
  {
    assert (r + b)[..|r|] == r && (r + b)[|r|..] == b && all[1..] == fs;
  }

  lemma HoldsAppend(b: seq<Byte>, fs: seq<Frame>, r: seq<Byte>, f: Frame)
    requires Holds(b, fs) && IsRecord(r, f)
    ensures Holds(b + r, fs + [f])
  {
    assert r[..|r|] == r && r[|r|..] == [] && [f][1..] == [];
    HoldsJoin(b, fs, r, [f]);
  }

  datatype Decoded = Bad | Frames(fs: seq<Frame>)

  /** Reads records until the bytes are used up. */
  function Decode(b: seq<Byte>): Decoded
    decreases |b|
  {
    if b == [] then Frames([])
    else if |b| < 4 then Bad
    else
      var len := LengthAt(b, 0);
      if len == 0 || len > MAX_FRAME || Record(len) > |b| then Bad
      else match Decode(b[Record(len)..])
        case Bad => Bad
        case Frames(fs) => Frames([b[4..4 + len]] + fs)
  }

  lemma RecordParts(b: seq<Byte>, f: Frame)
    requires Record(|f|) <= |b| && IsRecord(b[..Record(|f|)], f)
    ensures LengthAt(b, 0) == |f| && b[4..4 + |f|] == f
  {
    SliceSlice(b, 0, Record(|f|), 4, 4 + |f|);
    assert b[0..Record(|f|)] == b[..Record(|f|)];
  }

  lemma DecodeStep(b: seq<Byte>, f: Frame, fs: seq<Frame>)
    requires 0 < |f| <= MAX_FRAME && Record(|f|) <= |b| && LengthAt(b, 0) == |f| && b[4..4 + |f|] == f
    requires Decode(b[Record(|f|)..]) == Frames(fs)
    ensures Decode(b) == Frames([f] + fs)
  {
  }

  /** Decoding inverts laying records down. */
  lemma {:induction false} RoundTrip(b: seq<Byte>, fs: seq<Frame>)
    requires Holds(b, fs)
    ensures Decode(b) == Frames(fs)
    decreases |fs|
  {
    if fs == [] {
    } else {
      var n := Record(|fs[0]|);
      RoundTrip(b[n..], fs[1..]);
      RecordParts(b, fs[0]);
      DecodeStep(b, fs[0], fs[1..]);
      assert fs == [fs[0]] + fs[1..];
    }
  }

  // ----- The ring -----

  /** The n bytes from position p, going round. */
  function View(ring: Ring, p: nat, n: nat): (b: seq<Byte>)
    requires |ring| == SIZE
    ensures |b| == n
  {
    seq(n, i requires 0 <= i < n => ring[Slot(p + i)])
  }

  lemma ViewSlice(ring: Ring, p: nat, n: nat, o: nat, m: nat)
    requires |ring| == SIZE && o + m <= n
    ensures View(ring, p + o, m) == View(ring, p, n)[o..o + m]
  {
    var (a, b) := (View(ring, p + o, m), View(ring, p, n)[o..o + m]);
    forall i | 0 <= i < m ensures a[i] == b[i] {
      assert p + o + i == p + (o + i);
    }
  }

  lemma ViewJoin(ring: Ring, p: nat, n: nat, m: nat)
    requires |ring| == SIZE
    ensures View(ring, p, n + m) == View(ring, p, n) + View(ring, p + n, m)
  {
    ViewSlice(ring, p, n + m, 0, n);
    ViewSlice(ring, p, n + m, n, m);
    var v := View(ring, p, n + m);
    assert v == v[0..n] + v[n..n + m];
  }

  lemma ViewWraps(ring: Ring, p: nat, n: nat)
    requires |ring| == SIZE
    ensures View(ring, p % WORD, n) == View(ring, p, n)
  {
    forall i | 0 <= i < n ensures View(ring, p % WORD, n)[i] == View(ring, p, n)[i] {
      SlotShift(p, i);
    }
  }

  lemma SlotShift(p: nat, i: nat)
    ensures Slot(p % WORD + i) == Slot(p + i)
  {
    assert p == p / WORD * WORD + p % WORD;
  }

  /** The ring once some bytes are written from position p on, going round. */
  function Poke(ring: Ring, p: nat, bytes: seq<Byte>): (r: Ring)
    requires |ring| == SIZE && |bytes| <= SIZE
    ensures |r| == SIZE
  {
    seq(SIZE, i requires 0 <= i < SIZE =>
      var d := Ahead(i, p);
      if d < |bytes| then bytes[d] else ring[i])
  }

  lemma PokeAt(ring: Ring, p: nat, bytes: seq<Byte>, d: nat)
    requires |ring| == SIZE && |bytes| <= SIZE && d < SIZE
    ensures Poke(ring, p, bytes)[Slot(p + d)] == if d < |bytes| then bytes[d] else ring[Slot(p + d)]
  {
    AheadOf(p, d);
  }

  lemma PokeView(ring: Ring, p: nat, bytes: seq<Byte>)
    requires |ring| == SIZE && |bytes| <= SIZE
    ensures View(Poke(ring, p, bytes), p, |bytes|) == bytes
  {
    forall d | 0 <= d < |bytes| ensures View(Poke(ring, p, bytes), p, |bytes|)[d] == bytes[d] {
      PokeAt(ring, p, bytes, d);
    }
  }

  /** Bytes written n past p leave those n alone, if they end within a turn of p. */
  lemma PokeElsewhere(ring: Ring, p: nat, n: nat, bytes: seq<Byte>)
    requires |ring| == SIZE && n + |bytes| <= SIZE
    ensures View(Poke(ring, p + n, bytes), p, n) == View(ring, p, n)
  {
    forall d | 0 <= d < n ensures View(Poke(ring, p + n, bytes), p, n)[d] == View(ring, p, n)[d] {
      PokeAt(ring, p + n, bytes, SIZE - n + d);
      assert Slot(p + n + (SIZE - n + d)) == Slot(p + d);
    }
  }

  lemma PokePoke(ring: Ring, p: nat, a: seq<Byte>, b: seq<Byte>)
    requires |ring| == SIZE && |a| + |b| <= SIZE
    ensures Poke(Poke(ring, p, a), p + |a|, b) == Poke(ring, p, a + b)
  {
    var l, r := Poke(Poke(ring, p, a), p + |a|, b), Poke(ring, p, a + b);
    forall i | 0 <= i < SIZE ensures l[i] == r[i] {
      var d := Ahead(i, p);
      assert Ahead(i, p + |a|) == if d >= |a| then d - |a| else d + SIZE - |a|;
    }
  }

  /** A write into the ring's memory must not run past its end; going round it is the same. */
  lemma PokeLinear(ring: Ring, p: nat, bytes: seq<Byte>)
    requires |ring| == SIZE && Slot(p) + |bytes| <= SIZE
    ensures Splice(ring, Slot(p), bytes) == Poke(ring, p, bytes)
  {
  }

  /** An aligned length word never straddles the wrap. */
  lemma Aligned(p: nat)
    requires p % 4 == 0
    ensures Slot(p) + 4 <= SIZE && Slot(Slot(p) + 4) == Slot(p + 4)
  {
    assert Slot(p) % 4 == 0;
  }

  /** The copy of one record, the frame split in two where the ring wraps. */
  method WriteRecord(ring: Ring, head: nat, f: Frame) returns (r: Ring)
    requires |ring| == SIZE && head % 4 == 0 && 0 < |f| <= MAX_FRAME
    ensures r == Poke(ring, head, WordBytes(|f|) + f)
  {
    var off := Slot(head);
    Aligned(head);
    PokeLinear(ring, head, WordBytes(|f|));
    r := Splice(ring, off, WordBytes(|f|));
    off := Slot(off + 4);
    r := WriteSplit(r, head + 4, off, f);
    PokePoke(ring, head, WordBytes(|f|), f);
  }

  /** How much of a frame fits before the ring's end. */
  function First(off: nat, f: Frame): (n: nat)
    requires off <= SIZE
    ensures n <= |f| && off + n <= SIZE
  {
    if |f| < SIZE - off then |f| else SIZE - off
  }

  method WriteSplit(ring: Ring, ghost p: nat, off: nat, f: Frame) returns (r: Ring)
    requires |ring| == SIZE && off == Slot(p) && |f| <= MAX_FRAME
    ensures r == Poke(ring, p, f)
  {
    var first := First(off, f);
    PokeLinear(ring, p, f[..first]);
    r := Splice(ring, off, f[..first]);
    if first < |f| {
      PokeLinear(r, p + first, f[first..]);
      PokePoke(ring, p, f[..first], f[first..]);
      r := Splice(r, 0, f[first..]);
    }
    assert f == f[..first] + f[first..];
    assert first == |f| ==> f[..first] == f;
  }

  /** A record has been laid down: padding bytes keep what they held. */
  lemma PokeRecord(ring: Ring, p: nat, f: Frame)
    requires |ring| == SIZE && 0 < |f| <= MAX_FRAME
    ensures IsRecord(View(Poke(ring, p, WordBytes(|f|) + f), p, Record(|f|)), f)
  {
    var b := WordBytes(|f|) + f;
    var ring' := Poke(ring, p, b);
    PokeView(ring, p, b);
    ViewSlice(ring', p, Record(|f|), 0, |b|);
    var r := View(ring', p, Record(|f|));
    assert r[0..|b|] == b;
    assert r[0] == b[0] && r[1] == b[1] && r[2] == b[2] && r[3] == b[3];
    assert r[4..4 + |f|] == r[0..|b|][4..];
  }

  lemma PokeWraps(ring: Ring, p: nat, bytes: seq<Byte>)
    requires |ring| == SIZE && |bytes| <= SIZE
    ensures Poke(ring, p % WORD, bytes) == Poke(ring, p, bytes)
  {
    SlotShift(p, 0);
  }

  // ----- Records one behind the other -----

  predicate Legal(fs: seq<Frame>) {
    forall i :: 0 <= i < |fs| ==> 0 < |fs[i]| <= MAX_FRAME
  }

  /** The ring is the one before with the records of fs written from position p on, one behind the
      other, and no other byte touched. */
  ghost predicate LaidOn(was: Ring, ring: Ring, p: nat, fs: seq<Frame>)
    decreases |fs|
  {
    && |was| == SIZE
    && if fs == [] then ring == was
       else
         && 0 < |fs[0]| <= MAX_FRAME
         && LaidOn(Poke(was, p, WordBytes(|fs[0]|) + fs[0]), ring, p + Record(|fs[0]|), fs[1..])
  }

  lemma LaidNone(ring: Ring, p: nat)
    requires |ring| == SIZE
    ensures LaidOn(ring, ring, p, [])
  {
  }

  lemma LaidFirst(was: Ring, next: Ring, ring: Ring, p: nat, f: Frame, q: nat, rest: seq<Frame>, fs: seq<Frame>)
    requires |was| == SIZE && 0 < |f| <= MAX_FRAME && next == Poke(was, p, WordBytes(|f|) + f) && q == p + Record(|f|)
    requires fs == [f] + rest && LaidOn(next, ring, q, rest)
    ensures LaidOn(was, ring, p, fs)
  {
    assert fs[0] == f && fs[1..] == rest;
  }

  lemma LaidParts(was: Ring, ring: Ring, p: nat, fs: seq<Frame>) returns (next: Ring, q: nat)
    requires LaidOn(was, ring, p, fs) && fs != []
    ensures |was| == SIZE && 0 < |fs[0]| <= MAX_FRAME && next == Poke(was, p, WordBytes(|fs[0]|) + fs[0])
    ensures q == p + Record(|fs[0]|) && LaidOn(next, ring, q, fs[1..])
  {
    next, q := Poke(was, p, WordBytes(|fs[0]|) + fs[0]), p + Record(|fs[0]|);
  }

  /** It is one ring only. */
  lemma {:induction false} LaidUnique(was: Ring, a: Ring, b: Ring, p: nat, fs: seq<Frame>)
    requires LaidOn(was, a, p, fs) && LaidOn(was, b, p, fs)
    ensures a == b
    decreases |fs|
  {
    if fs == [] {
    } else {
      var next, q := LaidParts(was, a, p, fs);
      LaidUnique(next, a, b, q, fs[1..]);
    }
  }

  /** One record more, behind the others. */
  lemma {:induction false} LaidNext(was: Ring, ring: Ring, ring': Ring, p: nat, end: nat, fs: seq<Frame>, f: Frame,
                                    more: seq<Frame>)
    requires LaidOn(was, ring, p, fs) && 0 < |f| <= MAX_FRAME && more == fs + [f] && end == p + Total(fs)
    requires |ring| == SIZE && ring' == Poke(ring, end, WordBytes(|f|) + f)
    ensures LaidOn(was, ring', p, more)
    decreases |fs|
  {
    if fs == [] {
      LaidNone(ring', p + Record(|f|));
      LaidFirst(was, ring', ring', p, f, p + Record(|f|), [], more);
    } else {
      var next, q := LaidParts(was, ring, p, fs);
      LaidNext(next, ring, ring', q, end, fs[1..], f, fs[1..] + [f]);
      assert more == [fs[0]] + (fs[1..] + [f]);
      LaidFirst(was, next, ring', p, fs[0], q, fs[1..] + [f], more);
    }
  }

  /** Bytes written further on leave those before. */
  lemma Unread(ring: Ring, tail: nat, used: nat, n: nat, b: seq<Byte>)
    requires |ring| == SIZE && used <= n && n + |b| <= SIZE
    ensures View(Poke(ring, tail + n, b), tail, used) == View(ring, tail, used)
  {
    PokeElsewhere(ring, tail, n, b);
    ViewSlice(ring, tail, n, 0, used);
    ViewSlice(Poke(ring, tail + n, b), tail, n, 0, used);
  }

  /** So do records that end within a turn. */
  lemma {:induction false} LaidUnread(was: Ring, ring: Ring, tail: nat, used: nat, n: nat, fs: seq<Frame>)
    requires LaidOn(was, ring, tail + n, fs) && used <= n && n + Total(fs) <= SIZE
    ensures |ring| == SIZE && View(ring, tail, used) == View(was, tail, used)
    decreases |fs|
  {
    if fs == [] {
    } else {
      var next, q := LaidParts(was, ring, tail + n, fs);
      Unread(was, tail, used, n, WordBytes(|fs[0]|) + fs[0]);
      LaidUnread(next, ring, tail, used, n + Record(|fs[0]|), fs[1..]);
    }
  }

  lemma HoldsFirst(ring: Ring, p: nat, f: Frame, n: nat, rest: seq<Frame>, fs: seq<Frame>)
    requires |ring| == SIZE && IsRecord(View(ring, p, Record(|f|)), f) && Holds(View(ring, p + Record(|f|), n), rest)
    requires fs == [f] + rest
    ensures Holds(View(ring, p, Record(|f|) + n), fs)
  {
    ViewJoin(ring, p, Record(|f|), n);
    HoldsCons(View(ring, p, Record(|f|)), f, View(ring, p + Record(|f|), n), rest, fs);
  }

  /** What was laid lies there, record by record. */
  lemma {:induction false} LaidHolds(was: Ring, ring: Ring, p: nat, fs: seq<Frame>)
    requires LaidOn(was, ring, p, fs) && Total(fs) <= SIZE
    ensures |ring| == SIZE && Holds(View(ring, p, Total(fs)), fs)
    decreases |fs|
  {
    if fs == [] {
    } else {
      var (f, rest) := (fs[0], fs[1..]);
      var next, q := LaidParts(was, ring, p, fs);
      PokeRecord(was, p, f);
      LaidUnread(next, ring, p, Record(|f|), Record(|f|), rest);
      LaidHolds(next, ring, q, rest);
      assert fs == [f] + rest;
      HoldsFirst(ring, p, f, Total(rest), rest, fs);
    }
  }

  lemma PokeSame(ring: Ring, p: nat, q: nat, bytes: seq<Byte>)
    requires |ring| == SIZE && |bytes| <= SIZE && p % WORD == q % WORD
    ensures Poke(ring, p, bytes) == Poke(ring, q, bytes)
  {
    PokeWraps(ring, p, bytes);
    PokeWraps(ring, q, bytes);
  }

  lemma SameStep(p: nat, p1: nat, q: nat, q1: nat, n: nat)
    requires p % WORD == q % WORD && p1 == p + n && q1 == q + n
    ensures p1 % WORD == q1 % WORD
  {
  }

  /** Positions that agree modulo 2^32 lay the same. */
  lemma {:induction false} LaidWraps(was: Ring, ring: Ring, p: nat, q: nat, fs: seq<Frame>)
    requires LaidOn(was, ring, p, fs) && p % WORD == q % WORD
    ensures LaidOn(was, ring, q, fs)
    decreases |fs|
  {
    if fs == [] {
    } else {
      var (f, rest) := (fs[0], fs[1..]);
      var next, p1 := LaidParts(was, ring, p, fs);
      var q1 := q + Record(|f|);
      PokeSame(was, p, q, WordBytes(|f|) + f);
      SameStep(p, p1, q, q1, Record(|f|));
      LaidWraps(next, ring, p1, q1, rest);
      assert fs == [f] + rest;
      LaidFirst(was, next, ring, q, f, q1, rest, fs);
    }
  }

  // ----- Delivering frames -----

  datatype Stop = Done | Full | Malformed

  datatype Scanned = Scanned(fs: seq<Frame>, stop: Stop)

  predicate WellFormed(data: seq<Byte>, pos: nat) {
    && pos + 4 <= |data|
    && 0 < LengthAt(data, pos) <= MAX_FRAME
    && pos + Record(LengthAt(data, pos)) <= |data|
  }

  /** In numbers: a whole length word, of 1 to 1514 bytes, and the frame rounded up to words. */
  lemma WellFormedIs(data: seq<Byte>, pos: nat)
    ensures WellFormed(data, pos) <==>
            && pos + 4 <= |data| && 1 <= LengthAt(data, pos) <= 1514
            && pos + 4 + (LengthAt(data, pos) + 3) / 4 * 4 <= |data|
  {
  }

  lemma InputRecord(data: seq<Byte>, pos: nat)
    requires WellFormed(data, pos)
    ensures var len := LengthAt(data, pos);
            IsRecord(data[pos..pos + Record(len)], data[pos + 4..pos + 4 + len])
  {
    var len := LengthAt(data, pos);
    var r := data[pos..pos + Record(len)];
    SliceSlice(data, pos, pos + Record(len), 4, 4 + len);
  }

  /** Frames at the front of the buffer: as many as were asked for, as fit and as are well
      formed, and no fewer. */
  ghost predicate Takes(data: seq<Byte>, asked: nat, room: nat, s: Scanned) {
    var end := Total(s.fs);
    && end <= |data| && end <= room && Holds(data[..end], s.fs)
    && match s.stop
       case Done => |s.fs| == asked
       case Malformed => |s.fs| < asked && !WellFormed(data, end)
       case Full => |s.fs| < asked && WellFormed(data, end) && end + Record(LengthAt(data, end)) > room
  }

  lemma InputAppend(data: seq<Byte>, pos: nat, acc: seq<Frame>, n: nat, f: Frame)
    requires pos == Total(acc) && pos + n <= |data| && Holds(data[..pos], acc) && IsRecord(data[pos..pos + n], f)
    ensures n == Record(|f|) && Total(acc + [f]) == pos + n && Holds(data[..pos + n], acc + [f])
  {
    HoldsAppend(data[..pos], acc, data[pos..pos + n], f);
    assert data[..pos + n] == data[..pos] + data[pos..pos + n];
    TotalAppend(acc, f);
  }

  lemma HoldsFits(b: seq<Byte>, fs: seq<Frame>)
    requires Holds(b, fs)
    ensures |b| == Total(fs)
    decreases |fs|
  {
    if fs == [] {
    } else {
      HoldsFits(b[Record(|fs[0]|)..], fs[1..]);
    }
  }

  lemma RecordLength(b: seq<Byte>, fs: seq<Frame>)
    requires Holds(b, fs) && fs != []
    ensures Record(|fs[0]|) <= |b| && LengthAt(b, 0) == |fs[0]| && WellFormed(b, 0)
  {
    RecordParts(b, fs[0]);
  }

  lemma SameFrame(b: seq<Byte>, n: nat, f: Frame, m: nat, g: Frame)
    requires n <= |b| && m <= |b| && IsRecord(b[..n], f) && IsRecord(b[..m], g)
    ensures f == g
  {
    RecordParts(b, f);
    RecordParts(b, g);
  }

  /** Of the same bytes, fewer frames taken are the first of all there are. */
  lemma {:induction false} TakenFirst(b: seq<Byte>, fs: seq<Frame>, end: nat, gs: seq<Frame>)
    requires Holds(b, fs) && end <= |b| && Holds(b[..end], gs) && |gs| <= |fs|
    ensures gs == fs[..|gs|] && Holds(b[end..], fs[|gs|..])
    decreases |gs|
  {
    if gs == [] {
      assert b[end..] == b && fs[0..] == fs;
    } else {
      var (f, n) := (fs[0], Record(|fs[0]|));
      var m := Record(|gs[0]|);
      assert b[..end][..m] == b[..m];
      SameFrame(b, n, f, m, gs[0]);
      assert b[..end][n..] == b[n..][..end - n];
      TakenFirst(b[n..], fs[1..], end - n, gs[1..]);
      assert b[n..][end - n..] == b[end..] && fs[1..][|gs| - 1..] == fs[|gs|..];
      assert gs == [f] + fs[1..][..|gs| - 1];
    }
  }

  lemma WellFormedAt(b: seq<Byte>, p: nat)
    requires p <= |b|
    ensures WellFormed(b, p) <==> WellFormed(b[p..], 0)
    ensures WellFormed(b, p) ==> LengthAt(b, p) == LengthAt(b[p..], 0)
  {
    if p + 4 <= |b| {
      var c := b[p..];
      assert c[0] == b[p] && c[1] == b[p + 1] && c[2] == b[p + 2] && c[3] == b[p + 3];
    }
  }

  /** A batch of records that fit is taken whole: whatever the scan says, it can say nothing else. */
  lemma TakesAll(data: seq<Byte>, fs: seq<Frame>, room: nat, s: Scanned)
    requires Holds(data, fs) && Total(fs) <= room && Takes(data, |fs|, room, s)
    ensures s == Scanned(fs, Done)
  {
    var (end, n) := (Total(s.fs), |s.fs|);
    TakenFirst(data, fs, end, s.fs);
    if n < |fs| {
      var rest := data[end..];
      HoldsFits(data, fs);
      RecordLength(rest, fs[n..]);
      WellFormedAt(data, end);
      assert false;
    }
  }

  datatype Code = Ok | Error | Invalid | OutOfMemory

  datatype Fetched = Ragged | NoRoom | Got(f: Frame)

  lemma Small(n: nat)
    requires n < 2 * SIZE
    ensures n % WORD == n
  {
  }

  /** Reads one length word and tests the record against the buffer and the room. */
  method Fetch(data: seq<Byte>, pos: nat, held: nat) returns (r: Fetched)
    requires |data| < WORD && pos <= SIZE && held <= SIZE
    ensures r.Ragged? <==> !WellFormed(data, pos)
    ensures r.NoRoom? <==> WellFormed(data, pos) && held + Record(LengthAt(data, pos)) > SIZE
    ensures r.Got? ==> r.f == data[pos + 4..pos + 4 + LengthAt(data, pos)]
  {
    Small(pos + 4);
    if (pos + 4) % WORD > |data| {
      return Ragged;
    }
    var len := LengthAt(data, pos);
    if len == 0 || len > MAX_FRAME {
      return Ragged;
    }
    Small(pos + Record(len));
    if (pos + Record(len)) % WORD > |data| {
      return Ragged;
    }
    if held + Record(len) > SIZE {
      return NoRoom;
    }
    r := Got(data[pos + 4..pos + 4 + len]);
  }

  /** The scan so far: fs is what lies in the first pos bytes. */
  ghost predicate Scanning(data: seq<Byte>, pos: nat, fs: seq<Frame>) {
    pos == Total(fs) <= |data| && Holds(data[..pos], fs)
  }

  /** Where no further frame can be taken, the scan is done. */
  lemma ScanStops(data: seq<Byte>, pos: nat, asked: nat, room: nat, fs: seq<Frame>)
    requires |fs| < asked && Scanning(data, pos, fs) && pos <= room
    ensures !WellFormed(data, pos) ==> Takes(data, asked, room, Scanned(fs, Malformed))
    ensures WellFormed(data, pos) && pos + Record(LengthAt(data, pos)) > room ==>
              Takes(data, asked, room, Scanned(fs, Full))
  {
  }

  lemma ScanDone(data: seq<Byte>, pos: nat, asked: nat, room: nat, fs: seq<Frame>)
    requires |fs| == asked && Scanning(data, pos, fs) && pos <= room
    ensures Takes(data, asked, room, Scanned(fs, Done))
  {
  }

  lemma ScanGoes(data: seq<Byte>, pos: nat, fs: seq<Frame>, f: Frame)
    requires Scanning(data, pos, fs) && WellFormed(data, pos) && f == data[pos + 4..pos + 4 + LengthAt(data, pos)]
    ensures 0 < |f| <= MAX_FRAME && |f| == LengthAt(data, pos) && Scanning(data, pos + Record(|f|), fs + [f])
  {
    InputRecord(data, pos);
    InputAppend(data, pos, fs, Record(|f|), f);
  }

  /** As Fetch, with what it means for the scan. */
  method FetchNext(data: seq<Byte>, pos: nat, held: nat, ghost asked: nat, ghost room: nat, ghost fs: seq<Frame>)
    returns (r: Fetched)
    requires |data| < WORD && pos <= SIZE && held <= SIZE && room - pos == SIZE - held
    requires |fs| < asked && Scanning(data, pos, fs)
    ensures r.Ragged? ==> Takes(data, asked, room, Scanned(fs, Malformed))
    ensures r.NoRoom? ==> Takes(data, asked, room, Scanned(fs, Full))
    ensures r.Got? ==> 0 < |r.f| <= MAX_FRAME && held + Record(|r.f|) <= SIZE
    ensures r.Got? ==> Scanning(data, pos + Record(|r.f|), fs + [r.f])
  {
    ScanStops(data, pos, asked, room, fs);
    r := Fetch(data, pos, held);
    if r.Got? {
      ScanGoes(data, pos, fs, r.f);
    }
  }

  lemma Base(head: nat, tail: nat)
    requires head < WORD && tail < WORD
    ensures Wraps(tail, tail) && Wraps(head, tail + Sub32(head, tail))
  {
  }

  lemma Advance(head: nat, p: nat, len: nat)
    requires Wraps(head, p) && head % 4 == 0
    ensures Wraps((head + Record(len)) % WORD, p + Record(len)) && (head + Record(len)) % WORD % 4 == 0
  {
  }

  /** Head is the index past the records of fs behind the published bytes, and all of it fits. */
  ghost predicate Going(head: nat, base: nat, used: nat, fs: seq<Frame>) {
    Wraps(head, base + Total(fs)) && head % 4 == 0 && used + Total(fs) <= SIZE
  }

  lemma NothingYet(data: seq<Byte>, head: nat, tail: nat, base: nat, used: nat)
    requires head < WORD && tail < WORD && head % 4 == 0
    requires used == Sub32(head, tail) <= SIZE && base == tail + used
    ensures Scanning(data, 0, []) && Going(head, base, used, [])
  {
    Base(head, tail);
    assert data[..0] == [];
  }

  lemma Onward(head: nat, base: nat, used: nat, fs: seq<Frame>, f: Frame, more: seq<Frame>)
    requires Going(head, base, used, fs) && used + Total(fs) + Record(|f|) <= SIZE && more == fs + [f]
    ensures Going((head + Record(|f|)) % WORD, base, used, more)
  {
    TotalAppend(fs, f);
    Advance(head, base + Total(fs), |f|);
  }

  lemma HeadWord(head: nat, tail: nat, used: nat)
    requires head < WORD && tail < WORD && used == Sub32(head, tail)
    ensures (tail + used) % WORD == head % WORD == head
  {
  }

  lemma LaidFrom(was: Ring, rx: Ring, head: nat, tail: nat, used: nat, fs: seq<Frame>)
    requires head < WORD && tail < WORD && used == Sub32(head, tail) && LaidOn(was, rx, tail + used, fs)
    ensures LaidOn(was, rx, head, fs)
  {
    HeadWord(head, tail, used);
    LaidWraps(was, rx, tail + used, head, fs);
  }

  /** The two rings as the host sees them; the guest writes rxTail and txHead. */
  class Rings {
    var rx: Ring
    var rxHead: nat
    var rxTail: nat
    var tx: Ring
    var txHead: nat
    var txTail: nat

    ghost predicate Sane()
      reads this
    {
      |rx| == |tx| == SIZE && rxHead < WORD && rxTail < WORD && txHead < WORD && txTail < WORD && rxHead % 4 == 0
    }

    /** Lays one record behind those laid so far. */
    method LayNext(head: nat, f: Frame, ghost base: nat, ghost used: nat, ghost fs: seq<Frame>, ghost more: seq<Frame>,
                   ghost was: Ring)
      returns (next: nat)
      requires Sane() && 0 < |f| <= MAX_FRAME && used + Total(fs) + Record(|f|) <= SIZE
      requires Going(head, base, used, fs) && LaidOn(was, rx, base, fs) && more == fs + [f]
      modifies `rx
      ensures Sane() && Going(next, base, used, more) && LaidOn(was, rx, base, more)
    {
      ghost var before := rx;
      PokeWraps(rx, base + Total(fs), WordBytes(|f|) + f);
      rx := WriteRecord(rx, head, f);
      LaidNext(was, before, rx, base, base + Total(fs), fs, f, more);
      Onward(head, base, used, fs, f, more);
      next := (head + Record(|f|)) % WORD;
    }

    /** How full the ring is, reckoned in 32 bits from the tail read at the start. */
    method Held(head: nat, ghost base: nat, ghost used: nat, ghost fs: seq<Frame>) returns (held: nat)
      requires Sane() && base == rxTail + used && Going(head, base, used, fs)
      ensures held == used + Total(fs) <= SIZE
    {
      Gap(head, base + Total(fs), rxTail, rxTail);
      held := Sub32(head, rxTail);
    }

    /** Copies records behind the published ones until done, full or malformed; head is not
        yet published. The room is reckoned from the tail read at the start. */
    method Append(data: seq<Byte>, frames: nat, ghost used: nat, ghost base: nat)
      returns (ok: bool, head: nat, n: nat, ghost s: Scanned)
      requires Sane() && |data| < WORD && used == Sub32(rxHead, rxTail) <= SIZE && base == rxTail + used
      modifies `rx
      ensures Sane() && Takes(data, frames, SIZE - used, s) && (ok <==> s.stop != Malformed) && n == |s.fs|
      ensures Going(head, base, used, s.fs) && LaidOn(old(rx), rx, base, s.fs)
    {
      head, n := rxHead, 0;
      var pos: nat := 0;
      ghost var (was, fs) := (rx, []);
      NothingYet(data, rxHead, rxTail, base, used);
      LaidNone(rx, base);
      while n < frames
        invariant Sane() && n == |fs| <= frames && Scanning(data, pos, fs) && Going(head, base, used, fs)
        invariant LaidOn(was, rx, base, fs)
      {
        var held := Held(head, base, used, fs);
        var r := FetchNext(data, pos, held, frames, SIZE - used, fs);
        if r.Ragged? {
          return false, head, n, Scanned(fs, Malformed);
        }
        if r.NoRoom? {
          return true, head, n, Scanned(fs, Full);
        }
        ghost var more := fs + [r.f];
        head := LayNext(head, r.f, base, used, fs, more, was);
        pos, n, fs := pos + Record(|r.f|), n + 1, more;
      }
      ScanDone(data, pos, frames, SIZE - used, fs);
      return true, head, n, Scanned(fs, Done);
    }

    /** As Append, told from the head's own word. */
    method AppendFrom(data: seq<Byte>, frames: nat, ghost used: nat)
      returns (ok: bool, next: nat, n: nat, ghost s: Scanned)
      requires Sane() && |data| < WORD && used == Sub32(rxHead, rxTail) <= SIZE
      modifies `rx
      ensures Sane() && View(rx, rxTail, used) == old(View(rx, rxTail, used))
      ensures Takes(data, frames, SIZE - used, s) && (ok <==> s.stop != Malformed) && n == |s.fs|
      ensures LaidOn(old(rx), rx, rxHead, s.fs) && next % 4 == 0 && next == (rxHead + Total(s.fs)) % WORD
      ensures Delivered(rx, rxHead, next, rxTail, s.fs, n)
    {
      ghost var was := rx;
      ok, next, n, s := Append(data, frames, used, rxTail + used);
      LaidMeans(was, rx, rxHead, next, rxTail, used, s.fs);
    }

    /** Delivers a batch. On success the bytes between the old head and the new decode to the
        frames taken; on any refusal the published ring is as it was. */
    method Put(data: seq<Byte>, frames: nat) returns (rc: Code, taken: nat, ghost s: Scanned)
      requires Sane() && |data| < WORD
      modifies `rx, `rxHead
      ensures Sane() && (rc != Ok ==> taken == 0 && rxHead == old(rxHead))
      ensures rc == Error <==> Sub32(old(rxHead), rxTail) > SIZE
      ensures rc == Error ==> rx == old(rx)
      ensures rc != Error ==>
                View(rx, rxTail, Sub32(old(rxHead), rxTail)) == old(View(rx, rxTail, Sub32(rxHead, rxTail)))
      ensures rc != Error ==> Takes(data, frames, SIZE - Sub32(old(rxHead), rxTail), s)
      ensures rc != Error ==> rc == if s.stop == Malformed then Invalid else if s.fs == [] then OutOfMemory else Ok
      ensures rc != Error ==> LaidOn(old(rx), rx, old(rxHead), s.fs)
      ensures rc == Ok ==> rxHead == (old(rxHead) + Total(s.fs)) % WORD
      ensures rc == Ok ==> Delivered(rx, old(rxHead), rxHead, rxTail, s.fs, taken)
    {
      var head, tail := rxHead, rxTail;
      if Sub32(head, tail) > SIZE {
        return Error, 0, Scanned([], Done);
      }
      var ok, next, n;
      ok, next, n, s := AppendFrom(data, frames, Sub32(head, tail));
      if !ok {
        return Invalid, 0, s;
      }
      if n == 0 {
        return OutOfMemory, 0, s;
      }
      rxHead := next;
      return Ok, n, s;
    }

    /** Moves the transmit tail: accepted exactly on the arc from tail to head. */
    method Take(newTail: nat) returns (rc: Code)
      requires Sane() && newTail < WORD
      modifies `txTail
      ensures Sane() && rc == if OnArc(old(txTail), txHead, newTail) then Ok else Invalid
      ensures txTail == if rc == Ok then newTail else old(txTail)
      ensures rc == Ok ==> Sub32(txHead, txTail) + Sub32(newTail, old(txTail)) == Sub32(txHead, old(txTail))
    {
      Arc(txTail, txHead, newTail);
      if Sub32(newTail, txTail) > Sub32(txHead, txTail) {
        return Invalid;
      }
      if newTail != txTail {
        txTail := newTail;
      }
      rc := Ok;
    }

    /** A window of the transmit ring at an absolute position, split where it wraps. */
    method Dump(start: nat, size: nat) returns (data: seq<Byte>)
      requires Sane() && start < WORD
      ensures data == View(tx, start, if size > SIZE then SIZE else size)
    {
      var want := if size > SIZE then SIZE else size;
      var off := Slot(start);
      var first := if want < SIZE - off then want else SIZE - off;
      data := tx[off..off + first];
      if first < want {
        data := data + tx[..want - first];
      }
      ghost var v := View(tx, start, want);
      forall i | 0 <= i < want ensures data[i] == v[i] {
        SlotPlus(start, i);
      }
    }
  }

  /** On the arc from tail to head, going forward. */
  ghost predicate OnArc(tail: nat, head: nat, t: nat)
    requires tail < WORD && head < WORD
  {
    exists p :: tail <= p <= tail + Sub32(head, tail) && Wraps(t, p)
  }

  /** One comparison finds the arc, across the wrap and against moving back. */
  lemma Arc(tail: nat, head: nat, t: nat)
    requires tail < WORD && head < WORD && t < WORD
    ensures Sub32(t, tail) <= Sub32(head, tail) <==> OnArc(tail, head, t)
    ensures OnArc(tail, head, t) ==> Sub32(head, t) == Sub32(head, tail) - Sub32(t, tail)
  {
    Base(t, tail);
    if OnArc(tail, head, t) {
      var p :| tail <= p <= tail + Sub32(head, tail) && Wraps(t, p);
      Gap(t, p, tail, tail);
    }
  }

  /** The bytes from the old head to the new are the records of fs, within the ring. */
  ghost predicate Delivered(rx: Ring, from: nat, to: nat, tail: nat, fs: seq<Frame>, taken: nat) {
    && |rx| == SIZE && from < WORD && to < WORD && tail < WORD && taken == |fs|
    && Sub32(to, from) == Total(fs) && Sub32(to, tail) <= SIZE
    && Decode(View(rx, from, Total(fs))) == Frames(fs)
  }

  lemma PublishedCount(from: nat, to: nat, tail: nat, n: nat)
    requires from < WORD && tail < WORD && Sub32(from, tail) + n <= SIZE && Wraps(to, tail + Sub32(from, tail) + n)
    ensures to < WORD && Sub32(to, from) == n && Sub32(to, tail) <= SIZE
  {
    var base := tail + Sub32(from, tail);
    Base(from, tail);
    Gap(to, base + n, from, base);
    Gap(to, base + n, tail, tail);
  }

  lemma PublishedBytes(rx: Ring, from: nat, base: nat, n: nat, fs: seq<Frame>)
    requires |rx| == SIZE && Wraps(from, base) && Holds(View(rx, base, n), fs)
    ensures Decode(View(rx, from, n)) == Frames(fs)
  {
    RoundTrip(View(rx, base, n), fs);
    ViewWraps(rx, base, n);
  }

  /** The head a number of bytes further, from the tail or from the head's own word. */
  lemma NextWord(head: nat, next: nat, tail: nat, used: nat, n: nat)
    requires head < WORD && tail < WORD && used == Sub32(head, tail) && Wraps(next, tail + used + n)
    ensures next == (head + n) % WORD
  {
    HeadWord(head, tail, used);
    SameStep(tail + used, tail + used + n, head, head + n, n);
  }

  lemma PutBytes(rx: Ring, head: nat, tail: nat, used: nat, fs: seq<Frame>)
    requires |rx| == SIZE && head < WORD && tail < WORD && used == Sub32(head, tail)
    requires Holds(View(rx, tail + used, Total(fs)), fs)
    ensures Decode(View(rx, head, Total(fs))) == Frames(fs)
  {
    HeadWord(head, tail, used);
    PublishedBytes(rx, head, tail + used, Total(fs), fs);
  }

  lemma PutDone(rx: Ring, head: nat, next: nat, tail: nat, used: nat, fs: seq<Frame>, n: nat)
    requires |rx| == SIZE && head < WORD && tail < WORD && used == Sub32(head, tail) && n == Total(fs)
    requires Wraps(next, tail + used + n) && used + n <= SIZE && Holds(View(rx, tail + used, n), fs)
    ensures next == (head + n) % WORD && Delivered(rx, head, next, tail, fs, |fs|)
  {
    NextWord(head, next, tail, used, n);
    PublishedCount(head, next, tail, n);
    PutBytes(rx, head, tail, used, fs);
  }

  /** A frame's record as it lies in the ring's memory: two bytes of length, lowest first, two of
      zero, then the frame going round the end. */
  ghost predicate Lies(rx: Ring, head: nat, f: Frame) {
    && |rx| == 0x2_0000
    && rx[head % 0x2_0000] == |f| % 256 && rx[(head + 1) % 0x2_0000] == |f| / 256
    && rx[(head + 2) % 0x2_0000] == 0 && rx[(head + 3) % 0x2_0000] == 0
    && forall i :: 0 <= i < |f| ==> rx[(head + 4 + i) % 0x2_0000] == f[i]
  }

  lemma RecordLies(rx: Ring, p: nat, f: Frame)
    requires |rx| == SIZE && IsRecord(View(rx, p, Record(|f|)), f)
    ensures Lies(rx, p, f)
  {
    var r := View(rx, p, Record(|f|));
    LengthIs(r, 0, |f|);
    assert r[0] == rx[Slot(p + 0)] && r[1] == rx[Slot(p + 1)] && r[2] == rx[Slot(p + 2)] && r[3] == rx[Slot(p + 3)];
    forall i | 0 <= i < |f| ensures rx[(p + 4 + i) % 0x2_0000] == f[i] {
      assert r[4..4 + |f|][i] == r[4 + i] == rx[Slot(p + (4 + i))];
      assert p + (4 + i) == p + 4 + i;
    }
  }

  lemma HoldsParts(rx: Ring, p: nat, fs: seq<Frame>, f: Frame, n: nat, m: nat)
    requires |rx| == SIZE && fs != [] && f == fs[0] && n == Record(|f|) && m == Total(fs[1..])
    requires Holds(View(rx, p, Total(fs)), fs)
    ensures IsRecord(View(rx, p, n), f) && Holds(View(rx, p + n, m), fs[1..])
  {
    var v := View(rx, p, n + m);
    ViewSlice(rx, p, n + m, 0, n);
    ViewSlice(rx, p, n + m, n, m);
    assert v[0..n] == v[..n] && v[n..n + m] == v[n..];
  }

  lemma {:induction false} HoldsLies(rx: Ring, p: nat, fs: seq<Frame>, i: nat)
    requires |rx| == SIZE && Holds(View(rx, p, Total(fs)), fs) && i < |fs|
    ensures Lies(rx, p + Total(fs[..i]), fs[i])
    decreases i
  {
    var n := Record(|fs[0]|);
    HoldsParts(rx, p, fs, fs[0], n, Total(fs[1..]));
    if i == 0 {
      RecordLies(rx, p, fs[0]);
      assert fs[..0] == [];
    } else {
      HoldsLies(rx, p + n, fs[1..], i - 1);
      assert fs[..i][1..] == fs[1..][..i - 1] && fs[..i][0] == fs[0];
    }
  }

  /** Each frame laid from a position on lies so in the ring's memory, behind those before it. */
  lemma LaidLies(was: Ring, rx: Ring, head: nat, fs: seq<Frame>, i: nat)
    requires LaidOn(was, rx, head, fs) && Total(fs) <= SIZE && i < |fs|
    ensures Lies(rx, head + Total(fs[..i]), fs[i])
  {
    LaidHolds(was, rx, head, fs);
    HoldsLies(rx, head, fs, i);
  }

  /** What it comes to that records were laid behind the published ones. */
  lemma LaidMeans(was: Ring, rx: Ring, head: nat, next: nat, tail: nat, used: nat, fs: seq<Frame>)
    requires |rx| == SIZE && head < WORD && tail < WORD && used == Sub32(head, tail)
    requires LaidOn(was, rx, tail + used, fs) && Going(next, tail + used, used, fs)
    ensures |was| == SIZE && View(rx, tail, used) == View(was, tail, used) && LaidOn(was, rx, head, fs)
    ensures next == (head + Total(fs)) % WORD && Delivered(rx, head, next, tail, fs, |fs|)
  {
    LaidFrom(was, rx, head, tail, used, fs);
    LaidUnread(was, rx, tail, used, used, fs);
    LaidHolds(was, rx, tail + used, fs);
    PutDone(rx, head, next, tail, used, fs, Total(fs));
  }
}
