/** The reverse map of guest memory: an open-addressed hash from machine frames to
    pseudo frames, whose slot holds the pseudo frame plus one and zero when empty. */
module Translation {

  const MULTIPLIER: nat := 11400714819323198485
  const WORD64: nat := 0x1_0000_0000_0000_0000

  ghost predicate Power2(n: nat) {
    n == 1 || (n > 1 && n % 2 == 0 && Power2(n / 2))
  }

  /** Between a power of two and its double lies no other. */
  lemma {:induction false} PowerGap(n: nat, k: nat)
    requires Power2(n) && Power2(k) && n < 2 * k
    ensures n <= k
  {
    if n == 1 || k == 1 {
    } else {
      PowerGap(n / 2, k / 2);
    }
  }

  lemma PowerTwice(n: nat)
    requires Power2(n)
    ensures Power2(2 * n)
  {
    assert 2 * n % 2 == 0 && 2 * n / 2 == n;
  }

  lemma PowerUp(n: nat)
    requires Power2(n)
    ensures Power2(16 * n)
  {
    PowerTwice(n);
    PowerTwice(2 * n);
    PowerTwice(4 * n);
    PowerTwice(8 * n);
  }

  lemma SomePowers()
    ensures Power2(0x200_0000) && Power2(0x400_0000) && Power2(0x1000_0000)
  {
    assert Power2(4);
    PowerUp(4);
    PowerUp(0x40);
    PowerUp(0x400);
    PowerUp(0x4000);
    PowerUp(0x4_0000);
    PowerUp(0x40_0000);
    assert Power2(0x800_0000);
  }

  /** One and a half slots a page. */
  function WantedSlots(capacity: nat): nat {
    capacity + (capacity + 1) / 2
  }

  /** The table's size: the least power of two with slots enough. */
  ghost predicate HashSlots(capacity: nat, slots: nat) {
    Power2(slots) && slots / 2 < WantedSlots(capacity) <= slots
  }

  /** `slots` is a power of two, so masking with slots - 1 is the remainder. */
  function Hash(mfn: nat, slots: nat): (h: nat)
    requires slots > 0
    ensures h < slots
  {
    (mfn * MULTIPLIER % WORD64) % slots
  }

  /** The slots of frames 0, 1 and 74565 in a table of 2^26; the guest reckons them likewise. */
  lemma SomeHashes()
    ensures Hash(0, 0x400_0000) == 0
    ensures Hash(1, 0x400_0000) == 55213077
    ensures Hash(74565, 0x400_0000) == 35606697
  {
    Reduced(1, 11400714819323198485, 169883889247, 55213077, 0);
    Reduced(74565, 12993354077027913897, 193616063550, 35606697, 46083);
  }

  lemma LowWord(p: nat, q: nat, r: nat)
    requires p == q * WORD64 + r && r < WORD64
    ensures p % WORD64 == r
  {
  }

  lemma LowSlots(r: nat, t: nat, h: nat)
    requires r == t * 0x400_0000 + h && h < 0x400_0000
    ensures r % 0x400_0000 == h
  {
  }

  lemma Reduced(mfn: nat, r: nat, t: nat, h: nat, q: nat)
    requires mfn * 11400714819323198485 == q * 0x1_0000_0000_0000_0000 + r && r < 0x1_0000_0000_0000_0000
    requires r == t * 0x400_0000 + h && h < 0x400_0000
    ensures Hash(mfn, 0x400_0000) == h
  {
    LowWord(mfn * MULTIPLIER, q, r);
    LowSlots(r, t, h);
  }

  /** The slot visited after d steps from h. */
  function Probe(h: nat, d: nat, slots: nat): (k: nat)
    requires h < slots && d < slots
    ensures k < slots
  {
    if h + d < slots then h + d else h + d - slots
  }

  /** Probing from h meets no empty slot in its first d steps. */
  ghost predicate Busy(m2p: seq<nat>, h: nat, d: nat)
    requires h < |m2p| && d <= |m2p|
  {
    forall e :: 0 <= e < d ==> m2p[Probe(h, e, |m2p|)] != 0
  }

  ghost predicate FoundAt(m2p: seq<nat>, h: nat, d: nat, v: nat)
    requires h < |m2p|
  {
    d < |m2p| && m2p[Probe(h, d, |m2p|)] == v && Busy(m2p, h, d)
  }

  ghost predicate Findable(m2p: seq<nat>, h: nat, v: nat)
    requires h < |m2p|
  {
    exists d :: FoundAt(m2p, h, d, v)
  }

  function Occupied(m2p: seq<nat>): nat {
    if m2p == [] then 0 else Occupied(m2p[..|m2p| - 1]) + if m2p[|m2p| - 1] == 0 then 0 else 1
  }

  /** The hash holds exactly the first `backed` pseudo frames, each where probing finds it. */
  ghost predicate HashOk(p2m: seq<nat>, m2p: seq<nat>, backed: nat) {
    && backed <= |p2m| && |m2p| > 0
    && (forall k :: 0 <= k < |m2p| ==> m2p[k] <= backed)
    && (forall i, j :: 0 <= i < j < backed ==> p2m[i] != p2m[j])
    && (forall i :: 0 <= i < backed ==> Findable(m2p, Hash(p2m[i], |m2p|), i + 1))
    && Occupied(m2p) == backed
  }

  lemma OccupiedSet(m2p: seq<nat>, k: nat, v: nat)
    requires k < |m2p| && m2p[k] == 0 && v != 0
    ensures Occupied(m2p[k := v]) == Occupied(m2p) + 1
  {
    var n := |m2p| - 1;
    if k < n {
      OccupiedSet(m2p[..n], k, v);
      assert m2p[k := v][..n] == m2p[..n][k := v];
    } else {
      assert m2p[k := v][..n] == m2p[..n];
    }
  }

  lemma OccupiedZero(m2p: seq<nat>)
    requires forall k :: 0 <= k < |m2p| ==> m2p[k] == 0
    ensures Occupied(m2p) == 0
  {
  }

  /** Fewer entries than slots: some slot is empty. */
  lemma EmptySlot(m2p: seq<nat>) returns (k: nat)
    requires Occupied(m2p) < |m2p|
    ensures k < |m2p| && m2p[k] == 0
  {
    var n := |m2p| - 1;
    if m2p[n] == 0 {
      k := n;
    } else {
      k := EmptySlot(m2p[..n]);
    }
  }

  /** Probing from anywhere reaches every slot. */
  function Distance(h: nat, k: nat, slots: nat): (d: nat)
    requires h < slots && k < slots
    ensures d < slots && Probe(h, d, slots) == k
  {
    if h <= k then k - h else k + slots - h
  }

  /** Filling an empty slot hides nothing that could be found. */
  lemma FindableAfterSet(m2p: seq<nat>, h: nat, v: nat, k: nat, w: nat)
    requires h < |m2p| && Findable(m2p, h, v) && v != 0 && k < |m2p| && m2p[k] == 0 && w != 0
    ensures Findable(m2p[k := w], h, v)
  {
    var d :| FoundAt(m2p, h, d, v);
    assert FoundAt(m2p[k := w], h, d, v);
  }

  lemma EnteredFindable(m2p: seq<nat>, h: nat, d: nat, v: nat)
    requires h < |m2p| && d < |m2p| && Busy(m2p, h, d) && m2p[Probe(h, d, |m2p|)] == 0 && v != 0
    ensures Findable(m2p[Probe(h, d, |m2p|) := v], h, v)
  {
    assert FoundAt(m2p[Probe(h, d, |m2p|) := v], h, d, v);
  }

  /** Entering the next page at the first empty slot of its probe sequence. */
  lemma Enter(p2m: seq<nat>, m2p: seq<nat>, backed: nat, mfn: nat, d: nat)
    requires HashOk(p2m, m2p, backed) && backed < |p2m| && d < |m2p|
    requires forall i :: 0 <= i < backed ==> p2m[i] != mfn
    requires Busy(m2p, Hash(mfn, |m2p|), d) && m2p[Probe(Hash(mfn, |m2p|), d, |m2p|)] == 0
    ensures HashOk(p2m[backed := mfn], m2p[Probe(Hash(mfn, |m2p|), d, |m2p|) := backed + 1], backed + 1)
  {
    var k := Probe(Hash(mfn, |m2p|), d, |m2p|);
    var (p', m') := (p2m[backed := mfn], m2p[k := backed + 1]);
    OccupiedSet(m2p, k, backed + 1);
    forall i | 0 <= i < backed + 1 ensures Findable(m', Hash(p'[i], |m'|), i + 1) {
      if i < backed {
        assert Findable(m2p, Hash(p2m[i], |m2p|), i + 1);
        FindableAfterSet(m2p, Hash(p2m[i], |m2p|), i + 1, k, backed + 1);
      } else {
        EnteredFindable(m2p, Hash(mfn, |m2p|), d, backed + 1);
      }
    }
  }

  /** A probe that reaches an empty slot, or comes all the way round, has missed nothing. */
  lemma NotFound(p2m: seq<nat>, m2p: seq<nat>, backed: nat, mfn: nat, d: nat)
    requires HashOk(p2m, m2p, backed) && d <= |m2p|
    requires Missed(p2m, m2p, backed, mfn, d)
    requires d == |m2p| || m2p[Probe(Hash(mfn, |m2p|), d, |m2p|)] == 0
    ensures forall i :: 0 <= i < backed ==> p2m[i] != mfn
  {
    forall i | 0 <= i < backed ensures p2m[i] != mfn {
      assert Findable(m2p, Hash(p2m[i], |m2p|), i + 1);
      var e :| FoundAt(m2p, Hash(p2m[i], |m2p|), e, i + 1);
    }
  }

  /** The first d slots probed for the frame are occupied, by other frames. */
  ghost predicate Missed(p2m: seq<nat>, m2p: seq<nat>, backed: nat, mfn: nat, d: nat)
    requires |m2p| > 0 && d <= |m2p| && backed <= |p2m|
  {
    forall e :: 0 <= e < d ==>
      var v := m2p[Probe(Hash(mfn, |m2p|), e, |m2p|)]; v != 0 && (v <= backed ==> p2m[v - 1] != mfn)
  }

  /** Entries above the backed pages do not concern the hash. */
  lemma HashFrame(p2m: seq<nat>, p2m': seq<nat>, m2p: seq<nat>, backed: nat)
    requires HashOk(p2m, m2p, backed) && |p2m'| == |p2m| && forall i :: 0 <= i < backed ==> p2m'[i] == p2m[i]
    ensures HashOk(p2m', m2p, backed)
  {
    forall i | 0 <= i < backed ensures Findable(m2p, Hash(p2m'[i], |m2p|), i + 1) {
      assert Findable(m2p, Hash(p2m[i], |m2p|), i + 1);
    }
  }
}
