/** Host memory windows above guest RAM: ranges of the forward array handed out
    downward from its top, or placed where the caller asks. */
module Windows {

  const ULONG: nat := 0x1_0000_0000

  datatype Rc = Ok | InvalidParameter | OutOfMemory

  /** A range of the arena and the host frames it shows. */
  datatype Window = Window(first: nat, mfns: seq<nat>) {
    function End(): nat { first + |mfns| }
  }

  /** The arena is [base, |p2m|); a zero entry is unmapped; `live` is history. */
  datatype Arena = Arena(p2m: seq<nat>, base: nat, next: nat, live: set<Window>)

  /** How many frames come before the first frame zero. */
  function Good(mfns: seq<nat>): (n: nat)
    ensures n <= |mfns| && (forall i :: 0 <= i < n ==> mfns[i] != 0) && (n < |mfns| ==> mfns[n] == 0)
  {
    if mfns == [] || mfns[0] == 0 then 0 else 1 + Good(mfns[1..])
  }

  function Zeros(n: nat): (s: seq<nat>)
    ensures |s| == n && forall i :: 0 <= i < n ==> s[i] == 0
  {
    seq(n, _ => 0)
  }

  /** The array with the given entries stored from `first` on. */
  function Store(p2m: seq<nat>, first: nat, s: seq<nat>): (r: seq<nat>)
    requires first + |s| <= |p2m|
    ensures |r| == |p2m|
    ensures forall k :: 0 <= k < |r| ==> r[k] == if first <= k < first + |s| then s[k - first] else p2m[k]
  {
    p2m[..first] + s + p2m[first + |s|..]
  }

  lemma StoreNext(p2m: seq<nat>, first: nat, mfns: seq<nat>, i: nat)
    requires i < |mfns| && first + |mfns| <= |p2m|
    ensures Store(p2m, first, mfns[..i])[first + i := mfns[i]] == Store(p2m, first, mfns[..i + 1])
  {
  }

  lemma StoreAgain(p2m: seq<nat>, first: nat, s: seq<nat>, t: seq<nat>)
    requires |s| == |t| && first + |s| <= |p2m|
    ensures Store(Store(p2m, first, s), first, t) == Store(p2m, first, t)
  {
  }

  /** Storing the frames one by one; at a frame zero, what was stored is cleared again. */
  function Fill(p2m: seq<nat>, first: nat, mfns: seq<nat>): seq<nat>
    requires first + |mfns| <= |p2m|
  {
    if Good(mfns) == |mfns| then Store(p2m, first, mfns) else Store(p2m, first, Zeros(Good(mfns)))
  }

  /** The next downward range. Its slots are not tested for vacancy. */
  function MapDown(a: Arena, mfns: seq<nat>): (Rc, Arena)
    requires a.next <= |a.p2m|
  {
    var n := |mfns|;
    if n == 0 then (InvalidParameter, a)
    else if a.next < n || a.next - n < a.base then (OutOfMemory, a)
    else
      var filled := a.(p2m := Fill(a.p2m, a.next - n, mfns));
      if Good(mfns) < n then (InvalidParameter, filled)
      else (Ok, filled.(next := a.next - n, live := a.live + {Window(a.next - n, mfns)}))
  }

  lemma MapDownFits(a: Arena, mfns: seq<nat>, first: nat)
    requires a.next <= |a.p2m| && |mfns| > 0 && first + |mfns| == a.next && a.base <= first && Good(mfns) == |mfns|
    ensures MapDown(a, mfns) == (Ok, Arena(Fill(a.p2m, first, mfns), a.base, first, a.live + {Window(first, mfns)}))
  {
  }

  /** The range test of caller-placed maps and unmaps, in 32-bit unsigned arithmetic. */
  predicate RangeOk(a: Arena, first: nat, count: nat) {
    first >= a.base && count <= (|a.p2m| - first) % ULONG
  }

  /** A call that is refused outright or starts inside the array; past the array's end the test
      wraps, and the entries it lets through are not there. */
  predicate Answered(a: Arena, first: nat, count: nat) {
    |a.p2m| < ULONG && (count > 0 && RangeOk(a, first, count) ==> first <= |a.p2m|)
  }

  predicate Vacant(p2m: seq<nat>, first: nat, count: nat)
    requires first + count <= |p2m|
  {
    forall k :: first <= k < first + count ==> p2m[k] == 0
  }

  function MapAt(a: Arena, first: nat, mfns: seq<nat>): (Rc, Arena)
    requires Answered(a, first, |mfns|)
  {
    var n := |mfns|;
    if n == 0 || !RangeOk(a, first, n) then (InvalidParameter, a)
    else if !Vacant(a.p2m, first, n) then (OutOfMemory, a)
    else
      var filled := a.(p2m := Fill(a.p2m, first, mfns));
      if Good(mfns) < n then (InvalidParameter, filled)
      else (Ok, filled.(live := a.live + {Window(first, mfns)}))
  }

  /** The windows that are not this range. */
  ghost function Others(live: set<Window>, first: nat, count: nat): set<Window> {
    set w | w in live && (w.first != first || |w.mfns| != count)
  }

  ghost function Unmap(a: Arena, first: nat, count: nat): Arena
    requires Answered(a, first, count)
  {
    if count == 0 || !RangeOk(a, first, count) then a
    else a.(p2m := Store(a.p2m, first, Zeros(count)),
            live := Others(a.live, first, count),
            next := if first == a.next then a.next + count else a.next)
  }

  lemma UnmapFits(a: Arena, first: nat, count: nat, p2m: seq<nat>)
    requires Answered(a, first, count) && count > 0 && RangeOk(a, first, count)
    requires p2m == Store(a.p2m, first, Zeros(count))
    ensures Unmap(a, first, count)
            == Arena(p2m, a.base, if first == a.next then a.next + count else a.next, Others(a.live, first, count))
  {
  }

  /** The 32-bit test means what it says exactly for ranges that start inside the array. */
  lemma RangeTest(a: Arena, first: nat, count: nat)
    requires |a.p2m| < ULONG && first < ULONG
    ensures first <= |a.p2m| ==> (RangeOk(a, first, count) <==> a.base <= first && first + count <= |a.p2m|)
    ensures first > |a.p2m| && a.base <= first && count <= ULONG - first + |a.p2m| ==> RangeOk(a, first, count)
  {
    if first > |a.p2m| {
      assert (|a.p2m| - first) % ULONG == ULONG - first + |a.p2m|;
    }
  }

  predicate Covers(w: Window, k: nat) {
    w.first <= k < w.End()
  }

  predicate Apart(v: Window, w: Window) {
    v.End() <= w.first || w.End() <= v.first
  }

  ghost predicate Bounded(a: Arena) {
    a.base <= a.next <= |a.p2m| < ULONG
  }

  ghost predicate Mapped(a: Arena, w: Window) {
    && w.mfns != [] && a.base <= w.first && w.End() <= |a.p2m| && Good(w.mfns) == |w.mfns|
    && forall k :: w.first <= k < w.End() ==> a.p2m[k] == w.mfns[k - w.first]
  }

  /** Live windows are inside the arena, fully mapped and pairwise disjoint, and nothing
      else in the arena is mapped. */
  ghost predicate Sound(a: Arena) {
    && Bounded(a)
    && (forall w :: w in a.live ==> Mapped(a, w))
    && (forall v, w :: v in a.live && w in a.live && v != w ==> Apart(v, w))
    && (forall k :: a.base <= k < |a.p2m| && a.p2m[k] != 0 ==> Owned(a, k))
  }

  ghost predicate Owned(a: Arena, k: nat) {
    exists w :: w in a.live && Covers(w, k)
  }

  lemma ZerosRestore(p2m: seq<nat>, first: nat, n: nat)
    requires first + n <= |p2m|
    ensures Store(p2m, first, Zeros(n)) == p2m <==> Vacant(p2m, first, n)
  {
    var f := Store(p2m, first, Zeros(n));
    if Vacant(p2m, first, n) {
      forall k | 0 <= k < |f| ensures f[k] == p2m[k] {
      }
    } else {
      var k :| first <= k < first + n && p2m[k] != 0;
      assert f[k] == 0;
    }
  }

  /** In a vacant range, a failed fill restores what was there. */
  lemma FailedFill(p2m: seq<nat>, first: nat, mfns: seq<nat>)
    requires first + |mfns| <= |p2m| && Good(mfns) < |mfns|
    ensures Fill(p2m, first, mfns) == p2m <==> Vacant(p2m, first, Good(mfns))
  {
    ZerosRestore(p2m, first, Good(mfns));
  }

  /** A vacant range lies apart from every live window. */
  lemma VacantApart(a: Arena, n: Window, w: Window)
    requires Sound(a) && n.mfns != [] && n.End() <= |a.p2m| && Vacant(a.p2m, n.first, |n.mfns|) && w in a.live
    ensures Apart(n, w)
  {
    assert Mapped(a, w);
    var k := if n.first < w.first then w.first else n.first;
    assert Covers(w, k) ==> a.p2m[k] == w.mfns[k - w.first] != 0;
  }

  lemma FillOwned(a: Arena, n: Window, b: Arena, k: nat)
    requires Sound(a) && n.End() <= |a.p2m| && b.p2m == Store(a.p2m, n.first, n.mfns) && b.live == a.live + {n}
    requires a.base <= k < |b.p2m| && b.p2m[k] != 0
    ensures Owned(b, k)
  {
    if Covers(n, k) {
      assert n in b.live;
    } else {
      assert Owned(a, k);
      var w :| w in a.live && Covers(w, k);
      assert w in b.live;
    }
  }

  /** Mapping frames into a vacant range of the arena. */
  lemma FillSound(a: Arena, n: Window, next: nat)
    requires Sound(a) && n.mfns != [] && a.base <= n.first && n.End() <= |a.p2m|
    requires Vacant(a.p2m, n.first, |n.mfns|) && Good(n.mfns) == |n.mfns| && a.base <= next <= |a.p2m|
    ensures n !in a.live
    ensures Sound(Arena(Fill(a.p2m, n.first, n.mfns), a.base, next, a.live + {n}))
  {
    var b := Arena(Fill(a.p2m, n.first, n.mfns), a.base, next, a.live + {n});
    forall w | w in a.live ensures Apart(n, w) && Mapped(b, w) {
      VacantApart(a, n, w);
      assert Mapped(a, w);
    }
    forall k | b.base <= k < |b.p2m| && b.p2m[k] != 0 ensures Owned(b, k) {
      FillOwned(a, n, b, k);
    }
  }

  /** The windows are sound after a call as before; an accepted one adds a new window and a
      refused one changes nothing. */
  ghost predicate Harmless(a: Arena, rc: Rc, b: Arena, n: Window) {
    Sound(b) && (if rc == Ok then n !in a.live && b.live == a.live + {n} else b == a)
  }

  /** A caller-placed map never disturbs a live window, and a failed one changes nothing. */
  lemma MapAtSound(a: Arena, first: nat, mfns: seq<nat>)
    requires Sound(a) && Answered(a, first, |mfns|)
    ensures var (rc, b) := MapAt(a, first, mfns); Harmless(a, rc, b, Window(first, mfns))
  {
    if mfns != [] && RangeOk(a, first, |mfns|) && Vacant(a.p2m, first, |mfns|) {
      if Good(mfns) < |mfns| {
        FailedFill(a.p2m, first, mfns);
      } else {
        FillSound(a, Window(first, mfns), a.next);
      }
    }
  }

  /** Releasing a live window, named exactly, takes that one away and no other. */
  lemma UnmapSound(a: Arena, w: Window)
    requires Sound(a) && w in a.live
    ensures Answered(a, w.first, |w.mfns|) && Sound(Unmap(a, w.first, |w.mfns|))
    ensures Unmap(a, w.first, |w.mfns|).live == a.live - {w}
  {
    assert Mapped(a, w);
    RangeTest(a, w.first, |w.mfns|);
    var b := Unmap(a, w.first, |w.mfns|);
    forall v | v in a.live && v != w ensures v in b.live && Mapped(b, v) {
      assert Mapped(a, v) && Apart(v, w);
    }
    forall k | b.base <= k < |b.p2m| && b.p2m[k] != 0 ensures Owned(b, k) {
      assert Owned(a, k);
      var v :| v in a.live && Covers(v, k);
      assert v in b.live;
    }
  }

  /** What a downward map writes to is vacant: the range it takes, or, of one refused for a bad
      frame, the part before that. */
  predicate NextVacant(a: Arena, mfns: seq<nat>)
    requires a.next <= |a.p2m|
  {
    a.base + |mfns| <= a.next ==> Vacant(a.p2m, a.next - |mfns|, Good(mfns))
  }

  /** Storing good frames in a range of the arena is harmless exactly when it was vacant. */
  lemma FillHarmless(a: Arena, n: Window, b: Arena, next: nat)
    requires Sound(a) && n.mfns != [] && a.base <= n.first && n.End() <= |a.p2m| && Good(n.mfns) == |n.mfns|
    requires a.base <= next <= |a.p2m| && b == Arena(Fill(a.p2m, n.first, n.mfns), a.base, next, a.live + {n})
    ensures Vacant(a.p2m, n.first, |n.mfns|) <==> Harmless(a, Ok, b, n)
  {
    if Vacant(a.p2m, n.first, |n.mfns|) {
      FillSound(a, n, next);
    } else {
      Overwrites(a, n, b);
    }
  }

  /** A downward map is harmless exactly when what it writes to was vacant. */
  lemma MapDownSound(a: Arena, mfns: seq<nat>)
    requires Sound(a)
    ensures var (rc, b) := MapDown(a, mfns);
            NextVacant(a, mfns) <==> Harmless(a, rc, b, Window(if |mfns| <= a.next then a.next - |mfns| else 0, mfns))
  {
    var n := |mfns|;
    if n > 0 && a.base + n <= a.next {
      var first := a.next - n;
      if Good(mfns) < n {
        FailedFill(a.p2m, first, mfns);
      } else {
        MapDownFits(a, mfns, first);
        FillHarmless(a, Window(first, mfns), MapDown(a, mfns).1, first);
      }
    }
  }

  lemma Overwrites(a: Arena, n: Window, b: Arena)
    requires Sound(a) && a.base <= n.first && n.End() <= |a.p2m| && !Vacant(a.p2m, n.first, |n.mfns|)
    requires b.live == a.live + {n}
    ensures n in a.live || !Sound(b)
  {
    Overwritten(a, n);
    var w :| w in a.live && !Apart(w, n);
    assert w in b.live && n in b.live;
  }

  lemma Overwritten(a: Arena, n: Window)
    requires Sound(a) && a.base <= n.first && n.End() <= |a.p2m| && !Vacant(a.p2m, n.first, |n.mfns|)
    ensures exists w :: w in a.live && !Apart(w, n)
  {
    var k :| n.first <= k < n.End() && a.p2m[k] != 0;
    assert Owned(a, k);
    var w :| w in a.live && Covers(w, k);
    assert !Apart(w, n);
  }

  /** A caller-placed window just below the downward ones is overwritten by the next map. */
  lemma MixedMapsCollide()
    ensures var a := Arena(Zeros(4), 1, 4, {});
            var b := MapAt(a, 3, [7]).1;
            Sound(a) && MapAt(a, 3, [7]).0 == Ok && MapDown(b, [9]).0 == Ok && !Sound(MapDown(b, [9]).1)
  {
    var a := Arena(Zeros(4), 1, 4, {});
    var b := MapAt(a, 3, [7]).1;
    var c := MapDown(b, [9]).1;
    assert Good([7]) == 1 && Good([9]) == 1;
    assert Window(3, [7]) in c.live && c.p2m[3] == 9;
  }

  // ----- Which calls are accepted, and what a release gives back -----

  /** A downward map is accepted exactly for some frames, none of them zero, that the arena has
      room for below the last range handed out. */
  lemma MapDownAccepts(a: Arena, mfns: seq<nat>)
    requires a.next <= |a.p2m|
    ensures MapDown(a, mfns).0 == Ok <==>
            mfns != [] && a.base + |mfns| <= a.next && forall i :: 0 <= i < |mfns| ==> mfns[i] != 0
    ensures MapDown(a, mfns).0 == OutOfMemory <==> mfns != [] && a.base + |mfns| > a.next
  {
    AllGood(mfns);
  }

  lemma AllGood(mfns: seq<nat>)
    ensures Good(mfns) == |mfns| <==> forall i :: 0 <= i < |mfns| ==> mfns[i] != 0
  {
  }

  /** A caller-placed one exactly for some frames, none of them zero, that fit into vacant slots of
      the arena there. */
  lemma MapAtAccepts(a: Arena, first: nat, mfns: seq<nat>)
    requires first <= |a.p2m| < ULONG
    ensures Answered(a, first, |mfns|)
    ensures MapAt(a, first, mfns).0 == Ok <==>
            && mfns != [] && a.base <= first && first + |mfns| <= |a.p2m|
            && (forall i :: 0 <= i < |mfns| ==> mfns[i] != 0)
            && (forall k :: first <= k < first + |mfns| ==> a.p2m[k] == 0)
    ensures MapAt(a, first, mfns).0 == OutOfMemory <==>
            && mfns != [] && a.base <= first && first + |mfns| <= |a.p2m|
            && exists k :: first <= k < first + |mfns| && a.p2m[k] != 0
  {
    RangeTest(a, first, |mfns|);
    AllGood(mfns);
  }

  lemma StoreBack(p2m: seq<nat>, first: nat, mfns: seq<nat>)
    requires first + |mfns| <= |p2m| && Vacant(p2m, first, |mfns|)
    ensures Store(Store(p2m, first, mfns), first, Zeros(|mfns|)) == p2m
  {
    StoreAgain(p2m, first, mfns, Zeros(|mfns|));
    ZerosRestore(p2m, first, |mfns|);
  }

  lemma OthersBack(live: set<Window>, n: Window)
    requires forall w :: w in live ==> w.first != n.first
    ensures Others(live + {n}, n.first, |n.mfns|) == live
  {
  }

  /** A live window's first slot is mapped, so none begins where a vacant range does. */
  lemma NoneThere(a: Arena, first: nat, count: nat)
    requires Sound(a) && count > 0 && first + count <= |a.p2m| && Vacant(a.p2m, first, count)
    ensures forall w :: w in a.live ==> w.first != first
  {
    forall w | w in a.live ensures w.first != first {
      assert Mapped(a, w);
      assert a.p2m[w.first] == w.mfns[w.first - w.first] != 0;
    }
  }

  /** Releasing the window that a downward map has just made in a vacant range gives back the arena
      as it was before, its next range included. */
  lemma DownAndBack(a: Arena, mfns: seq<nat>)
    requires Sound(a) && MapDown(a, mfns).0 == Ok && NextVacant(a, mfns)
    ensures var (b, first) := (MapDown(a, mfns).1, a.next - |mfns|);
            Answered(b, first, |mfns|) && Unmap(b, first, |mfns|) == a
  {
    var first := a.next - |mfns|;
    MapDownFits(a, mfns, first);
    var b := MapDown(a, mfns).1;
    StoreBack(a.p2m, first, mfns);
    NoneThere(a, first, |mfns|);
    OthersBack(a.live, Window(first, mfns));
    RangeTest(b, first, |mfns|);
    UnmapFits(b, first, |mfns|, a.p2m);
  }

  /** Releasing a window just placed gives the arena back too, unless it began where the next
      downward range ends: then that end moves up past it. */
  lemma PlaceAndBack(a: Arena, first: nat, mfns: seq<nat>)
    requires Sound(a) && Answered(a, first, |mfns|) && MapAt(a, first, mfns).0 == Ok
    ensures var b := MapAt(a, first, mfns).1;
            && Answered(b, first, |mfns|)
            && Unmap(b, first, |mfns|) == a.(next := if first == a.next then first + |mfns| else a.next)
  {
    var b := MapAt(a, first, mfns).1;
    StoreBack(a.p2m, first, mfns);
    NoneThere(a, first, |mfns|);
    OthersBack(a.live, Window(first, mfns));
    RangeTest(b, first, |mfns|);
    UnmapFits(b, first, |mfns|, a.p2m);
  }

  // ----- Runs -----

  datatype Call = Down(mfns: seq<nat>) | Place(first: nat, mfns: seq<nat>) | Drop(w: Window)

  /** Releases name a live window exactly. */
  ghost predicate Allowed(a: Arena, c: Call) {
    match c
    case Down(_) => a.next <= |a.p2m|
    case Place(first, mfns) => Answered(a, first, |mfns|)
    case Drop(w) => w in a.live && Answered(a, w.first, |w.mfns|)
  }

  predicate Refused(a: Arena, c: Call)
    requires c.Down? ==> a.next <= |a.p2m|
    requires c.Place? ==> Answered(a, c.first, |c.mfns|)
  {
    match c
    case Down(mfns) => MapDown(a, mfns).0 != Ok
    case Place(first, mfns) => MapAt(a, first, mfns).0 != Ok
    case Drop(_) => false
  }

  ghost function After(a: Arena, c: Call): Arena
    requires Allowed(a, c)
  {
    match c
    case Down(mfns) => MapDown(a, mfns).1
    case Place(first, mfns) => MapAt(a, first, mfns).1
    case Drop(w) => Unmap(a, w.first, |w.mfns|)
  }

  ghost predicate Run(a: Arena, calls: seq<Call>)
    decreases |calls|
  {
    calls == [] || (Allowed(a, calls[0]) && Run(After(a, calls[0]), calls[1..]))
  }

  ghost function Result(a: Arena, calls: seq<Call>): Arena
    requires Run(a, calls)
    decreases |calls|
  {
    if calls == [] then a else Result(After(a, calls[0]), calls[1..])
  }

  /** Every refused call of the run leaves the arena as it was. */
  ghost predicate RefusalsSilent(a: Arena, calls: seq<Call>)
    requires Run(a, calls)
    decreases |calls|
  {
    calls == [] || (&& (Refused(a, calls[0]) ==> After(a, calls[0]) == a)
                    && RefusalsSilent(After(a, calls[0]), calls[1..]))
  }

  /** Downward maps find their range vacant because every live window lies above it. */
  ghost predicate Descending(a: Arena) {
    Sound(a) && forall w :: w in a.live ==> a.next <= w.first
  }

  lemma NotOwned(a: Arena, k: nat)
    requires Descending(a) && k < a.next
    ensures !Owned(a, k)
  {
  }

  lemma DescendingVacant(a: Arena, count: nat)
    requires Descending(a) && count <= a.next && a.base <= a.next - count
    ensures Vacant(a.p2m, a.next - count, count)
  {
    forall k | a.next - count <= k < a.next ensures a.p2m[k] == 0 {
      NotOwned(a, k);
    }
  }

  lemma DescendingStep(a: Arena, c: Call)
    requires Descending(a) && Allowed(a, c) && !c.Place?
    ensures Descending(After(a, c)) && (Refused(a, c) ==> After(a, c) == a)
  {
    match c
    case Down(mfns) =>
      if mfns != [] && a.next >= |mfns| && a.next - |mfns| >= a.base {
        DescendingVacant(a, |mfns|);
      }
      MapDownSound(a, mfns);
    case Drop(w) =>
      UnmapSound(a, w);
      forall v | v in a.live && v != w ensures w.first == a.next ==> v.first >= w.End() {
        assert Mapped(a, v) && Apart(v, w);
      }
  }

  lemma {:induction false} DescendingRun(a: Arena, calls: seq<Call>)
    requires Descending(a) && Run(a, calls) && forall i :: 0 <= i < |calls| ==> !calls[i].Place?
    ensures Descending(Result(a, calls)) && Result(a, calls).base == a.base && RefusalsSilent(a, calls)
    decreases |calls|
  {
    if calls == [] {
    } else {
      DescendingStep(a, calls[0]);
      assert forall i :: 0 <= i < |calls[1..]| ==> calls[1..][i] == calls[i + 1];
      DescendingRun(After(a, calls[0]), calls[1..]);
    }
  }

  function Fresh(capacity: nat, base: nat): Arena {
    Arena(Zeros(capacity), base, capacity, {})
  }

  lemma FreshArena(capacity: nat, base: nat)
    requires base <= capacity < ULONG
    ensures Descending(Fresh(capacity, base))
  {
  }

  /** Over any run of downward maps and exact releases from the start, live windows are disjoint,
      inside the arena and show their own frames, nothing else in the arena is mapped, and
      refused calls change nothing. */
  lemma DownwardRun(capacity: nat, base: nat, calls: seq<Call>)
    requires base <= capacity < ULONG && Run(Fresh(capacity, base), calls)
    requires forall i :: 0 <= i < |calls| ==> !calls[i].Place?
    ensures Sound(Result(Fresh(capacity, base), calls)) && Result(Fresh(capacity, base), calls).base == base
    ensures RefusalsSilent(Fresh(capacity, base), calls)
  {
    FreshArena(capacity, base);
    DescendingRun(Fresh(capacity, base), calls);
  }

  /** No downward map of the run writes to a range in use. */
  ghost predicate Uncrossed(a: Arena, calls: seq<Call>)
    requires Run(a, calls)
    decreases |calls|
  {
    calls == [] || (&& (calls[0].Down? ==> NextVacant(a, calls[0].mfns))
                    && Uncrossed(After(a, calls[0]), calls[1..]))
  }

  ghost predicate CallHarmless(a: Arena, c: Call)
    requires Allowed(a, c)
  {
    match c
    case Down(mfns) =>
      Harmless(a, MapDown(a, mfns).0, After(a, c), Window(if |mfns| <= a.next then a.next - |mfns| else 0, mfns))
    case Place(first, mfns) => Harmless(a, MapAt(a, first, mfns).0, After(a, c), Window(first, mfns))
    case Drop(w) => Sound(After(a, c)) && After(a, c).live == a.live - {w}
  }

  ghost predicate AllHarmless(a: Arena, calls: seq<Call>)
    requires Run(a, calls)
    decreases |calls|
  {
    calls == [] || (CallHarmless(a, calls[0]) && AllHarmless(After(a, calls[0]), calls[1..]))
  }

  lemma CallSound(a: Arena, c: Call)
    requires Sound(a) && Allowed(a, c)
    ensures CallHarmless(a, c) <==> (c.Down? ==> NextVacant(a, c.mfns))
    ensures After(a, c).base == a.base
  {
    match c
    case Down(mfns) => MapDownSound(a, mfns);
    case Place(first, mfns) => MapAtSound(a, first, mfns);
    case Drop(w) => UnmapSound(a, w);
  }

  /** Of runs that mix in caller-placed windows, exactly those are harmless throughout in which
      no downward map crosses a window in use. */
  lemma {:induction false} MixedRun(a: Arena, calls: seq<Call>)
    requires Sound(a) && Run(a, calls)
    ensures Uncrossed(a, calls) <==> AllHarmless(a, calls)
    ensures Uncrossed(a, calls) ==> Sound(Result(a, calls)) && Result(a, calls).base == a.base
    decreases |calls|
  {
    if calls == [] {
    } else {
      CallSound(a, calls[0]);
      if CallHarmless(a, calls[0]) {
        MixedRun(After(a, calls[0]), calls[1..]);
      }
    }
  }
}
