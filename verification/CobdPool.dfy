/** The host's pool of request nodes: one free list and one FIFO per unit,
    all threaded through the `next` field of the same 128 nodes. */
module CobdPool {

  const UNITS: nat := 4
  const NODES: nat := 128
  const NULL: int := -1

  /** What a node carries from submission to completion. */
  datatype Work = Work(unit: nat, offset: nat, sgPa: nat, count: nat, write: bool, tag: nat)

  /** Who may touch a node: the free list, a unit's queue, or a unit's worker. */
  datatype Owner = Spare | Queued(unit: nat) | Held(unit: nat)

  /** The lists as sequences of node indices, head of the list first. */
  datatype Pool = Pool(work: seq<Work>, owner: seq<Owner>, free: seq<nat>, queue: seq<seq<nat>>)

  /** A list of distinct nodes that all have the given owner. */
  ghost predicate ListOf(owner: seq<Owner>, s: seq<nat>, o: Owner) {
    && (forall i :: 0 <= i < |s| ==> s[i] < |owner| && owner[s[i]] == o)
    && (forall i, j :: 0 <= i < j < |s| ==> s[i] != s[j])
  }

  /** A node is on the list its owner names, unless a worker holds it. */
  predicate Placed(p: Pool, n: nat)
    requires n < |p.owner|
  {
    match p.owner[n]
    case Spare => n in p.free
    case Queued(u) => u < |p.queue| && n in p.queue[u]
    case Held(_) => true
  }

  /** Every node is in exactly one place, once: the free list, a queue or a worker's hands. */
  ghost predicate Separate(p: Pool) {
    && |p.work| == |p.owner| == NODES && |p.queue| == UNITS
    && ListOf(p.owner, p.free, Spare)
    && (forall u :: 0 <= u < UNITS ==> ListOf(p.owner, p.queue[u], Queued(u)))
    && (forall n :: 0 <= n < NODES ==> Placed(p, n))
  }

  /** Take a free node for the request and append it to its unit's queue. */
  function Enqueue(p: Pool, w: Work): Pool
    requires |p.queue| == UNITS && w.unit < UNITS && p.free != [] && p.free[0] < |p.work| == |p.owner|
  {
    var n := p.free[0];
    Pool(p.work[n := w], p.owner[n := Queued(w.unit)], p.free[1..], p.queue[w.unit := p.queue[w.unit] + [n]])
  }

  /** The unit's worker takes the oldest node off the queue. */
  function Dequeue(p: Pool, u: nat): Pool
    requires u < |p.queue| && p.queue[u] != [] && p.queue[u][0] < |p.owner|
  {
    p.(owner := p.owner[p.queue[u][0] := Held(u)], queue := p.queue[u := p.queue[u][1..]])
  }

  /** A finished node goes back on the free list. */
  function Release(p: Pool, n: nat): Pool
    requires n < |p.owner|
  {
    p.(owner := p.owner[n := Spare], free := [n] + p.free)
  }

  /** Nodes n-1 down to 0: pushing 0, 1, 2, ... leaves the last one on top. */
  function Stack(n: nat): (s: seq<nat>)
    ensures |s| == n && forall i :: 0 <= i < n ==> s[i] == n - 1 - i
  {
    seq(n, i requires 0 <= i < n => n - 1 - i)
  }

  function Fresh(work: seq<Work>): Pool {
    Pool(work, seq(NODES, _ => Spare), Stack(NODES), [[], [], [], []])
  }

  lemma InTail(s: seq<nat>, n: nat)
    requires n in s && n != s[0]
    ensures n in s[1..]
  {
    var i :| 0 <= i < |s| && s[i] == n;
    assert s[1..][i - 1] == n;
  }

  lemma EnqueueKeepsSeparate(p: Pool, w: Work)
    requires Separate(p) && w.unit < UNITS && p.free != []
    ensures Separate(Enqueue(p, w))
  {
    var (n, q) := (p.free[0], Enqueue(p, w));
    assert q.queue[w.unit][|p.queue[w.unit]|] == n;
    forall m | 0 <= m < NODES && m != n ensures Placed(q, m) {
      assert Placed(p, m);
      if p.owner[m] == Spare {
        InTail(p.free, m);
      }
    }
  }

  lemma DequeueKeepsSeparate(p: Pool, u: nat)
    requires Separate(p) && u < UNITS && p.queue[u] != []
    ensures Separate(Dequeue(p, u))
  {
    var (n, q) := (p.queue[u][0], Dequeue(p, u));
    assert ListOf(p.owner, p.queue[u], Queued(u));
    forall m | 0 <= m < NODES && m != n ensures Placed(q, m) {
      assert Placed(p, m);
      if p.owner[m] == Queued(u) {
        InTail(p.queue[u], m);
      }
    }
  }

  lemma ReleaseKeepsSeparate(p: Pool, n: nat)
    requires Separate(p) && n < NODES && p.owner[n].Held?
    ensures Separate(Release(p, n))
  {
    var q := Release(p, n);
    assert q.free[0] == n;
    forall m | 0 <= m < NODES && m != n ensures Placed(q, m) {
      assert Placed(p, m);
    }
  }

  function After(s: seq<nat>, i: nat): int {
    if i + 1 < |s| then s[i + 1] else NULL
  }

  /** The nodes of `s` are linked in order from `head`, the last one ending the list. */
  ghost predicate Chain(next: seq<int>, head: int, s: seq<nat>) {
    && head == (if s == [] then NULL else s[0])
    && (forall i :: 0 <= i < |s| ==> s[i] < |next| && next[s[i]] == After(s, i))
  }

  /** Writing a node that is not on a list leaves the list alone. */
  lemma ChainFrame(next: seq<int>, head: int, s: seq<nat>, n: nat, v: int)
    requires Chain(next, head, s) && n < |next| && n !in s
    ensures Chain(next[n := v], head, s)
  {
  }

  lemma ChainTail(next: seq<int>, head: int, s: seq<nat>)
    requires Chain(next, head, s) && s != []
    ensures Chain(next, next[s[0]], s[1..])
  {
    var t := s[1..];
    forall i | 0 <= i < |t| ensures next[t[i]] == After(t, i) {
      assert t[i] == s[i + 1];
    }
  }

  lemma ChainPush(next: seq<int>, head: int, s: seq<nat>, n: nat)
    requires Chain(next, head, s) && n < |next| && n !in s
    ensures Chain(next[n := head], n, [n] + s)
  {
    var t := [n] + s;
    forall i | 0 <= i < |t| ensures next[n := head][t[i]] == After(t, i) {
      assert i > 0 ==> t[i] == s[i - 1];
    }
  }

  lemma ChainAppend(next: seq<int>, head: int, s: seq<nat>, n: nat)
    requires Chain(next, head, s) && n < |next| && n !in s
    requires forall i :: 0 <= i < |s| - 1 ==> s[i] != s[|s| - 1]
    ensures s == [] ==> Chain(next[n := NULL], n, [n])
    ensures s != [] ==> Chain(next[n := NULL][s[|s| - 1] := n], head, s + [n])
  {
  }

  /** A unit's head and tail links delimit exactly its queue. */
  ghost predicate UnitLinked(next: seq<int>, head: int, tail: int, s: seq<nat>) {
    Chain(next, head, s) && tail == if s == [] then NULL else s[|s| - 1]
  }

  /** The pool's lists are the ones the heads, tails and `next` fields spell out. */
  ghost predicate Linked(p: Pool, next: seq<int>, freeList: int, heads: seq<int>, tails: seq<int>) {
    && Separate(p) && |next| == NODES && |heads| == |tails| == UNITS
    && Chain(next, freeList, p.free)
    && forall u :: 0 <= u < UNITS ==> UnitLinked(next, heads[u], tails[u], p.queue[u])
  }

  /** Unlinking the first free node touches no queue. */
  lemma TakeFree(p: Pool, next: seq<int>, freeList: int, heads: seq<int>, tails: seq<int>)
    requires Linked(p, next, freeList, heads, tails) && p.free != []
    ensures var n := p.free[0];
            && n < NODES && n !in p.free[1..] && Chain(next[n := NULL], next[n], p.free[1..])
            && forall v :: 0 <= v < UNITS ==>
                 n !in p.queue[v] && UnitLinked(next[n := NULL], heads[v], tails[v], p.queue[v])
  {
    var n := p.free[0];
    ChainTail(next, freeList, p.free);
    ChainFrame(next, next[n], p.free[1..], n, NULL);
    forall v | 0 <= v < UNITS ensures n !in p.queue[v] && UnitLinked(next[n := NULL], heads[v], tails[v], p.queue[v]) {
      assert ListOf(p.owner, p.queue[v], Queued(v));
      ChainFrame(next, heads[v], p.queue[v], n, NULL);
    }
  }

  /** Linking a node behind the last of one queue touches no other list. */
  lemma LinkBehind(p: Pool, next: seq<int>, heads: seq<int>, tails: seq<int>, n: nat, u: nat)
    requires Separate(p) && |next| == NODES && |heads| == |tails| == UNITS && u < UNITS && p.queue[u] != []
    requires n < NODES && n !in p.queue[u] && next[n] == NULL
    requires forall v :: 0 <= v < UNITS ==> UnitLinked(next, heads[v], tails[v], p.queue[v])
    ensures 0 <= tails[u] < NODES && UnitLinked(next[tails[u] := n], heads[u], n, p.queue[u] + [n])
    ensures p.owner[tails[u]] == Queued(u)
    ensures forall v :: 0 <= v < UNITS && v != u ==> UnitLinked(next[tails[u] := n], heads[v], tails[v], p.queue[v])
  {
    assert ListOf(p.owner, p.queue[u], Queued(u));
    assert UnitLinked(next, heads[u], tails[u], p.queue[u]);
    ChainAppend(next, heads[u], p.queue[u], n);
    assert next[n := NULL] == next;
    forall v | 0 <= v < UNITS && v != u ensures UnitLinked(next[tails[u] := n], heads[v], tails[v], p.queue[v]) {
      assert ListOf(p.owner, p.queue[v], Queued(v));
      ChainFrame(next, heads[v], p.queue[v], tails[u], n);
    }
  }

  lemma EnqueueFirst(p: Pool, next: seq<int>, freeList: int, heads: seq<int>, tails: seq<int>, w: Work)
    requires Linked(p, next, freeList, heads, tails) && w.unit < UNITS && p.free != [] && p.queue[w.unit] == []
    ensures var (n, u) := (p.free[0], w.unit);
            Linked(Enqueue(p, w), next[n := NULL], next[n], heads[u := n], tails[u := n])
  {
    TakeFree(p, next, freeList, heads, tails);
    ChainAppend(next, NULL, [], p.free[0]);
    EnqueueKeepsSeparate(p, w);
  }

  lemma EnqueueBehind(p: Pool, next: seq<int>, freeList: int, heads: seq<int>, tails: seq<int>, w: Work)
    requires Linked(p, next, freeList, heads, tails) && w.unit < UNITS && p.free != [] && p.queue[w.unit] != []
    ensures var (n, u) := (p.free[0], w.unit);
            && 0 <= tails[u] < NODES
            && Linked(Enqueue(p, w), next[n := NULL][tails[u] := n], next[n], heads, tails[u := n])
  {
    var (n, u) := (p.free[0], w.unit);
    TakeFree(p, next, freeList, heads, tails);
    LinkBehind(p, next[n := NULL], heads, tails, n, u);
    ChainFrame(next[n := NULL], next[n], p.free[1..], tails[u], n);
    EnqueueKeepsSeparate(p, w);
  }

  lemma DequeueLast(p: Pool, next: seq<int>, freeList: int, heads: seq<int>, tails: seq<int>, u: nat)
    requires Linked(p, next, freeList, heads, tails) && u < UNITS && p.queue[u] != [] && next[p.queue[u][0]] == NULL
    ensures Linked(Dequeue(p, u), next, freeList, heads[u := NULL], tails[u := NULL])
  {
    DequeueKeepsSeparate(p, u);
    ChainTail(next, heads[u], p.queue[u]);
  }

  lemma DequeueMore(p: Pool, next: seq<int>, freeList: int, heads: seq<int>, tails: seq<int>, u: nat)
    requires Linked(p, next, freeList, heads, tails) && u < UNITS && p.queue[u] != [] && next[p.queue[u][0]] != NULL
    ensures Linked(Dequeue(p, u), next, freeList, heads[u := next[p.queue[u][0]]], tails)
  {
    DequeueKeepsSeparate(p, u);
    ChainTail(next, heads[u], p.queue[u]);
  }

  lemma ReleaseLinks(p: Pool, next: seq<int>, freeList: int, heads: seq<int>, tails: seq<int>, n: nat)
    requires Linked(p, next, freeList, heads, tails) && n < NODES && p.owner[n].Held?
    ensures Linked(Release(p, n), next[n := freeList], n, heads, tails)
  {
    ReleaseKeepsSeparate(p, n);
    ChainPush(next, freeList, p.free, n);
    forall v | 0 <= v < UNITS ensures UnitLinked(next[n := freeList], heads[v], tails[v], p.queue[v]) {
      ChainFrame(next, heads[v], p.queue[v], n, freeList);
    }
  }

  lemma FreshSeparate(work: seq<Work>)
    requires |work| == NODES
    ensures Separate(Fresh(work))
  {
    forall n | 0 <= n < NODES ensures Placed(Fresh(work), n) {
      assert Stack(NODES)[NODES - 1 - n] == n;
    }
  }

  lemma StartLinks(work: seq<Work>, next: seq<int>, heads: seq<int>, tails: seq<int>)
    requires |work| == |next| == NODES && forall k :: 0 <= k < NODES ==> next[k] == k - 1
    requires |heads| == |tails| == UNITS && forall u :: 0 <= u < UNITS ==> heads[u] == tails[u] == NULL
    ensures Linked(Fresh(work), next, NODES - 1, heads, tails)
  {
    FreshSeparate(work);
  }

  /** The driver's file-static pool; each method is one section under `sub_lock`. */
  class WorkPool {
    var work: seq<Work>
    var next: seq<int>
    var fifoHead: seq<int>
    var fifoTail: seq<int>
    var freeList: int
    ghost var contents: Pool

    ghost predicate Shaped()
      reads this
    {
      |work| == |next| == NODES && |fifoHead| == |fifoTail| == UNITS
    }

    ghost predicate Valid()
      reads this
    {
      contents.work == work && Linked(contents, next, freeList, fifoHead, fifoTail)
    }

    /** Rebuild everything: whatever the last run left, all 128 nodes become free. */
    method Start()
      requires Shaped()
      modifies this
      ensures Valid() && contents == Fresh(old(work))
    {
      freeList := NULL;
      for i := 0 to UNITS
        invariant Shaped() && freeList == NULL && work == old(work)
        invariant forall u :: 0 <= u < i ==> fifoHead[u] == fifoTail[u] == NULL
      {
        fifoHead, fifoTail := fifoHead[i := NULL], fifoTail[i := NULL];
      }
      for i := 0 to NODES
        invariant Shaped() && freeList == i - 1 && work == old(work)
        invariant forall k :: 0 <= k < i ==> next[k] == k - 1
        invariant forall u :: 0 <= u < UNITS ==> fifoHead[u] == fifoTail[u] == NULL
      {
        next := next[i := freeList];
        freeList := i;
      }
      StartLinks(work, next, fifoHead, fifoTail);
      contents := Fresh(work);
    }

    /** Accept a request, or refuse it for a bad unit or a full pool. */
    method Submit(unit: int, offset: nat, sgPa: nat, count: nat, write: bool, tag: nat) returns (ok: bool)
      requires Valid()
      modifies this
      ensures Valid()
      ensures ok <==> 0 <= unit < UNITS && old(contents).free != []
      ensures contents == if ok then Enqueue(old(contents), Work(unit, offset, sgPa, count, write, tag))
                          else old(contents)
    {
      if unit < 0 || unit >= UNITS {
        return false;
      }
      var node := freeList;
      if node == NULL {
        return false;
      }
      assert UnitLinked(next, fifoHead[unit], fifoTail[unit], contents.queue[unit]);
      ghost var w := Work(unit, offset, sgPa, count, write, tag);
      freeList := next[node];
      work := work[node := Work(unit, offset, sgPa, count, write, tag)];
      next := next[node := NULL];
      if fifoTail[unit] != NULL {
        EnqueueBehind(contents, old(next), old(freeList), fifoHead, fifoTail, w);
        next := next[fifoTail[unit] := node];
      } else {
        EnqueueFirst(contents, old(next), old(freeList), fifoHead, fifoTail, w);
        fifoHead := fifoHead[unit := node];
      }
      fifoTail := fifoTail[unit := node];
      contents := Enqueue(contents, w);
      return true;
    }

    /** The oldest queued node of the unit, or NULL when there is none. */
    method Pop(unit: nat) returns (node: int)
      requires Valid() && unit < UNITS
      modifies this
      ensures Valid()
      ensures node == NULL <==> old(contents).queue[unit] == []
      ensures node == NULL ==> contents == old(contents)
      ensures node != NULL ==> node == old(contents).queue[unit][0] && contents == Dequeue(old(contents), unit)
    {
      node := fifoHead[unit];
      assert UnitLinked(next, fifoHead[unit], fifoTail[unit], contents.queue[unit]);
      if node != NULL {
        fifoHead := fifoHead[unit := next[node]];
        if fifoHead[unit] == NULL {
          DequeueLast(contents, next, freeList, old(fifoHead), fifoTail, unit);
          fifoTail := fifoTail[unit := NULL];
        } else {
          DequeueMore(contents, next, freeList, old(fifoHead), fifoTail, unit);
        }
        contents := Dequeue(contents, unit);
      }
    }

    /** Give a node that a worker holds back to the free list. */
    method NodeFree(node: nat)
      requires Valid() && node < NODES && contents.owner[node].Held?
      modifies this
      ensures Valid() && contents == Release(old(contents), node)
    {
      ReleaseLinks(contents, next, freeList, fifoHead, fifoTail, node);
      contents := Release(contents, node);
      next := next[node := freeList];
      freeList := node;
    }
  }
}
