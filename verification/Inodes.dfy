/** The file server's inodes: a tree held in child lists, a flat list and a hash table, and
    the bounded recursion that forgets a subtree of any depth. */
module Inodes {

  const BUCKETS: nat := 0x1000
  const DEPTH: nat := 5       // how deep one pass recurses

  // ----- Lists -----

  ghost predicate Distinct(s: seq<nat>) {
    s == [] || (s[0] !in s[1..] && Distinct(s[1..]))
  }

  /** A list with one element unlinked. */
  function Without(s: seq<nat>, x: nat): seq<nat> {
    if s == [] then [] else if s[0] == x then s[1..] else [s[0]] + Without(s[1..], x)
  }

  lemma {:induction false} WithoutHas(s: seq<nat>, x: nat, y: nat)
    requires Distinct(s)
    ensures y in Without(s, x) <==> y in s && y != x
  {
    if s == [] {
    } else {
      WithoutHas(s[1..], x, y);
      assert y in s <==> y == s[0] || y in s[1..];
    }
  }

  lemma {:induction false} WithoutKeeps(s: seq<nat>, x: nat)
    requires Distinct(s)
    ensures Distinct(Without(s, x)) && |Without(s, x)| == if x in s then |s| - 1 else |s|
  {
    if s != [] && s[0] != x {
      WithoutKeeps(s[1..], x);
      WithoutHas(s[1..], x, s[0]);
      var r := Without(s, x);
      assert r[1..] == Without(s[1..], x);
      assert x in s <==> x in s[1..];
    }
  }

  lemma {:induction false} AppendDistinct(s: seq<nat>, x: nat)
    requires Distinct(s) && x !in s
    ensures Distinct(s + [x])
  {
    if s == [] {
    } else {
      AppendDistinct(s[1..], x);
      assert (s + [x])[1..] == s[1..] + [x];
    }
  }

  // ----- The flat list and the hash table -----

  /** One bucket holds exactly the live inodes whose number falls in it. */
  ghost predicate BucketOk(num: map<nat, nat>, bucket: seq<nat>, b: nat) {
    Distinct(bucket) && forall x :: x in bucket <==> x in num && num[x] % BUCKETS == b
  }

  ghost predicate HashOk(num: map<nat, nat>, hash: seq<seq<nat>>) {
    |hash| == BUCKETS && forall b :: 0 <= b < BUCKETS ==> BucketOk(num, hash[b], b)
  }

  ghost predicate FlatOk(num: map<nat, nat>, flat: seq<nat>, count: int) {
    Distinct(flat) && count == |flat| && forall x :: x in flat <==> x in num
  }

  /** Live numbers are unique. */
  ghost predicate Unique(num: map<nat, nat>) {
    forall x, y :: x in num && y in num && num[x] == num[y] ==> x == y
  }

  ghost predicate ListsOk(num: map<nat, nat>, flat: seq<nat>, hash: seq<seq<nat>>, count: int) {
    FlatOk(num, flat, count) && HashOk(num, hash) && Unique(num)
  }

  lemma FlatFree(num: map<nat, nat>, flat: seq<nat>, count: int, x: nat)
    requires FlatOk(num, flat, count) && x in num
    ensures FlatOk(num - {x}, Without(flat, x), count - 1)
  {
    WithoutKeeps(flat, x);
    forall y ensures y in Without(flat, x) <==> y in num - {x} {
      WithoutHas(flat, x, y);
    }
  }

  lemma BucketFree(num: map<nat, nat>, bucket: seq<nat>, b: nat, x: nat)
    requires BucketOk(num, bucket, b) && x in num
    ensures BucketOk(num - {x}, if num[x] % BUCKETS == b then Without(bucket, x) else bucket, b)
  {
    WithoutKeeps(bucket, x);
    forall y ensures y in Without(bucket, x) <==> y in bucket && y != x {
      WithoutHas(bucket, x, y);
    }
  }

  lemma HashFree(num: map<nat, nat>, hash: seq<seq<nat>>, x: nat)
    requires HashOk(num, hash) && x in num
    ensures HashOk(num - {x}, hash[num[x] % BUCKETS := Without(hash[num[x] % BUCKETS], x)])
  {
    var h := hash[num[x] % BUCKETS := Without(hash[num[x] % BUCKETS], x)];
    forall b | 0 <= b < BUCKETS ensures BucketOk(num - {x}, h[b], b) {
      BucketFree(num, hash[b], b, x);
    }
  }

  lemma FlatAdd(num: map<nat, nat>, flat: seq<nat>, count: int, x: nat, n: nat)
    requires FlatOk(num, flat, count) && x !in num
    ensures FlatOk(num[x := n], flat + [x], count + 1)
  {
    AppendDistinct(flat, x);
  }

  lemma HashAdd(num: map<nat, nat>, hash: seq<seq<nat>>, x: nat, n: nat)
    requires HashOk(num, hash) && x !in num
    ensures HashOk(num[x := n], hash[n % BUCKETS := hash[n % BUCKETS] + [x]])
  {
    var h := hash[n % BUCKETS := hash[n % BUCKETS] + [x]];
    forall b | 0 <= b < BUCKETS ensures BucketOk(num[x := n], h[b], b) {
      assert BucketOk(num, hash[b], b);
      if b == n % BUCKETS {
        AppendDistinct(hash[b], x);
      }
    }
  }

  // ----- Inodes and the trees they form -----

  datatype Link = None | Some(id: nat)

  datatype Inode = Inode(parent: Link, children: seq<nat>, number: nat)

  type Nodes = map<nat, Inode>

  datatype Tree = Tree(id: nat, kids: seq<Tree>)

  function Tops(ts: seq<Tree>): (ids: seq<nat>)
    ensures |ids| == |ts|
  {
    if ts == [] then [] else [ts[0].id] + Tops(ts[1..])
  }

  ghost function Ids(t: Tree): set<nat>
    decreases t
  {
    {t.id} + IdsAll(t.kids)
  }

  ghost function IdsAll(ts: seq<Tree>): set<nat>
    decreases ts
  {
    if ts == [] then {} else Ids(ts[0]) + IdsAll(ts[1..])
  }

  /** No inode appears twice. */
  ghost predicate Sep(ts: seq<Tree>)
    decreases ts
  {
    ts == [] ||
    (ts[0].id !in IdsAll(ts[0].kids) && Sep(ts[0].kids) && Ids(ts[0]) !! IdsAll(ts[1..]) && Sep(ts[1..]))
  }

  /** The nodes hold this tree: child lists in order, parent links back. */
  ghost predicate Rep(nodes: Nodes, t: Tree)
    decreases t
  {
    t.id in nodes && nodes[t.id].children == Tops(t.kids) && RepAll(nodes, t.kids, Some(t.id))
  }

  ghost predicate RepAll(nodes: Nodes, ts: seq<Tree>, parent: Link)
    decreases ts
  {
    ts == [] || (Rep(nodes, ts[0]) && nodes[ts[0].id].parent == parent && RepAll(nodes, ts[1..], parent))
  }

  ghost predicate Same(nodes: Nodes, nodes': Nodes, ids: set<nat>) {
    forall x :: x in ids && x in nodes ==> x in nodes' && nodes'[x] == nodes[x]
  }

  lemma {:induction false} RepSame(nodes: Nodes, nodes': Nodes, ts: seq<Tree>, parent: Link)
    requires RepAll(nodes, ts, parent) && Same(nodes, nodes', IdsAll(ts))
    ensures RepAll(nodes', ts, parent)
    decreases ts
  {
    if ts == [] {
    } else {
      var t := ts[0];
      assert Rep(nodes, t) && t.id in Ids(t) && Ids(t) <= IdsAll(ts);
      assert IdsAll(t.kids) <= Ids(t) && IdsAll(ts[1..]) <= IdsAll(ts);
      RepSame(nodes, nodes', t.kids, Some(t.id));
      RepSame(nodes, nodes', ts[1..], parent);
      assert Rep(nodes', t);
    }
  }

  // ----- Freeing -----

  datatype Fs = Fs(nodes: Nodes, flat: seq<nat>, hash: seq<seq<nat>>, count: int)

  function Numbers(nodes: Nodes): map<nat, nat> {
    map x | x in nodes :: nodes[x].number
  }

  function Kids(nodes: Nodes, x: nat): seq<nat> {
    if x in nodes then nodes[x].children else []
  }

  /** Out of its parent's child list, if it has a parent. */
  function Unlink(nodes: Nodes, x: nat): Nodes {
    if x in nodes && nodes[x].parent.Some? && nodes[x].parent.id in nodes then
      var p := nodes[x].parent.id;
      nodes[p := nodes[p].(children := Without(nodes[p].children, x))]
    else nodes
  }

  function FreeInode(fs: Fs, x: nat): Fs
    requires |fs.hash| == BUCKETS
  {
    if x !in fs.nodes then fs
    else
      var b := fs.nodes[x].number % BUCKETS;
      Fs(Unlink(fs.nodes, x) - {x}, Without(fs.flat, x), fs.hash[b := Without(fs.hash[b], x)], fs.count - 1)
  }

  function Orphan(nodes: Nodes, x: nat): Nodes {
    if x !in nodes then nodes else var n := Unlink(nodes, x); n[x := n[x].(parent := None)]
  }

  /** One pass over a list of siblings: below the depth limit they are put aside instead. */
  function FreeList(fs: Fs, ids: seq<nat>, level: nat, later: seq<nat>): (r: (Fs, seq<nat>))
    requires |fs.hash| == BUCKETS
    ensures |r.0.hash| == BUCKETS
    decreases if level > DEPTH then 0 else DEPTH + 1 - level, |ids|
  {
    if ids == [] then (fs, later)
    else if level > DEPTH then FreeList(fs.(nodes := Orphan(fs.nodes, ids[0])), ids[1..], level, [ids[0]] + later)
    else
      var r := FreeList(fs, Kids(fs.nodes, ids[0]), level + 1, later);
      FreeList(FreeInode(r.0, ids[0]), ids[1..], level, r.1)
  }

  /** Past level 5 siblings are put aside, the last of them first, and none is freed. */
  lemma {:induction false} PutAside(fs: Fs, ids: seq<nat>, level: nat, later: seq<nat>)
    requires |fs.hash| == 4096 && level > 5
    ensures var (g, l) := FreeList(fs, ids, level, later);
            g.nodes.Keys == fs.nodes.Keys && g.count == fs.count && |l| == |later| + |ids| && l[|ids|..] == later
    decreases |ids|
  {
    if ids == [] {
    } else {
      PutAside(fs.(nodes := Orphan(fs.nodes, ids[0])), ids[1..], level, [ids[0]] + later);
      var l := FreeList(fs, ids, level, later).1;
      assert l[|ids|..] == l[|ids| - 1..][1..];
    }
  }

  /** Up to level 5 an inode without children is freed. */
  lemma FreedAtFive(fs: Fs, x: nat, level: nat, later: seq<nat>)
    requires |fs.hash| == 4096 && level <= 5 && x in fs.nodes && fs.nodes[x].children == []
    ensures var (g, l) := FreeList(fs, [x], level, later);
            x !in g.nodes && g.count == fs.count - 1 && l == later
  {
    assert FreeList(fs, [], level + 1, later) == (fs, later);
    assert [x][1..] == [];
  }

  // ----- The lists stay true -----

  ghost predicate FsOk(fs: Fs) {
    ListsOk(Numbers(fs.nodes), fs.flat, fs.hash, fs.count)
  }

  lemma FreeKeepsLists(fs: Fs, x: nat)
    requires FsOk(fs)
    ensures FsOk(FreeInode(fs, x))
  {
    if x in fs.nodes {
      var num := Numbers(fs.nodes);
      FlatFree(num, fs.flat, fs.count, x);
      HashFree(num, fs.hash, x);
      assert Numbers(Unlink(fs.nodes, x)) == num;
      assert Numbers(FreeInode(fs, x).nodes) == num - {x};
    }
  }

  lemma {:induction false} PassKeepsLists(fs: Fs, ids: seq<nat>, level: nat, later: seq<nat>)
    requires FsOk(fs)
    ensures FsOk(FreeList(fs, ids, level, later).0)
    decreases if level > DEPTH then 0 else DEPTH + 1 - level, |ids|
  {
    if ids == [] {
    } else {
      if level > DEPTH {
        assert Numbers(Orphan(fs.nodes, ids[0])) == Numbers(fs.nodes);
        PassKeepsLists(fs.(nodes := Orphan(fs.nodes, ids[0])), ids[1..], level, [ids[0]] + later);
      } else {
        var r := FreeList(fs, Kids(fs.nodes, ids[0]), level + 1, later);
        PassKeepsLists(fs, Kids(fs.nodes, ids[0]), level + 1, later);
        FreeKeepsLists(r.0, ids[0]);
        PassKeepsLists(FreeInode(r.0, ids[0]), ids[1..], level, r.1);
      }
    }
  }

  // ----- What one pass does to the trees -----

  /** Trees put aside: whole, parentless, and listed. */
  ghost predicate Aside(nodes: Nodes, lts: seq<Tree>, later: seq<nat>) {
    later == Tops(lts) && RepAll(nodes, lts, None) && Sep(lts)
  }

  /** Before a pass: the siblings are a child list or a list put aside. */
  ghost predicate Ready(nodes: Nodes, ts: seq<Tree>, ids: seq<nat>, parent: Link, lts: seq<Tree>, later: seq<nat>) {
    && ids == Tops(ts) && RepAll(nodes, ts, parent) && Sep(ts) && Aside(nodes, lts, later) && IdsAll(lts) !! IdsAll(ts)
    && (parent.Some? ==>
          && parent.id in nodes && nodes[parent.id].children == ids
          && parent.id !in IdsAll(ts) && parent.id !in IdsAll(lts))
  }

  ghost predicate Elsewhere(nodes: Nodes, nodes': Nodes, ids: set<nat>, parent: Link) {
    forall x :: x in nodes && x !in ids && Some(x) != parent ==> x in nodes' && nodes'[x] == nodes[x]
  }

  /** Everything in ids is gone but what was put aside; the parent's list has become kids. */
  ghost predicate Gone(nodes: Nodes, nodes': Nodes, ids: set<nat>, parent: Link, kids: seq<nat>, lts: seq<Tree>,
                       lts': seq<Tree>) {
    && IdsAll(lts) <= IdsAll(lts') <= ids + IdsAll(lts)
    && nodes'.Keys == nodes.Keys - (ids - IdsAll(lts'))
    && Elsewhere(nodes, nodes', ids, parent)
    && (parent.Some? && parent.id in nodes ==>
          parent.id in nodes' && nodes'[parent.id] == nodes[parent.id].(children := kids))
  }

  lemma {:induction false} RepKeys(nodes: Nodes, ts: seq<Tree>, parent: Link)
    requires RepAll(nodes, ts, parent)
    ensures IdsAll(ts) <= nodes.Keys
    decreases ts
  {
    if ts == [] {
    } else {
      assert Rep(nodes, ts[0]);
      RepKeys(nodes, ts[0].kids, Some(ts[0].id));
      RepKeys(nodes, ts[1..], parent);
    }
  }

  /** One sibling freed, its own children having been passed over. */
  lemma FreeOne(nodes: Nodes, n1: Nodes, t: Tree, rest: seq<Tree>, parent: Link, lts: seq<Tree>, lts1: seq<Tree>,
                later: seq<nat>, later1: seq<nat>)
    requires Ready(nodes, [t] + rest, Tops([t] + rest), parent, lts, later)
    requires Aside(n1, lts1, later1) && Gone(nodes, n1, IdsAll(t.kids), Some(t.id), [], lts, lts1)
    ensures var n2 := Unlink(n1, t.id) - {t.id};
            && Ready(n2, rest, Tops(rest), parent, lts1, later1)
            && Gone(nodes, n2, Ids(t), parent, Tops(rest), lts, lts1)
            && t.id !in IdsAll(lts1)
  {
    var ts := [t] + rest;
    assert ts[0] == t && ts[1..] == rest;
    var n2 := Unlink(n1, t.id) - {t.id};
    RepKeys(nodes, ts, parent);
    assert Rep(nodes, t) && t.id in nodes && nodes[t.id].parent == parent;
    assert n1[t.id].parent == parent;
    assert Same(nodes, n2, IdsAll(rest));
    RepSame(nodes, n2, rest, parent);
    assert Same(n1, n2, IdsAll(lts1));
    RepSame(n1, n2, lts1, None);
  }

  /** One sibling put aside with all that is below it. */
  lemma OrphanOne(nodes: Nodes, t: Tree, rest: seq<Tree>, parent: Link, lts: seq<Tree>, later: seq<nat>)
    requires Ready(nodes, [t] + rest, Tops([t] + rest), parent, lts, later)
    ensures var n2 := Orphan(nodes, t.id);
            && Ready(n2, rest, Tops(rest), parent, [t] + lts, [t.id] + later)
            && Gone(nodes, n2, Ids(t), parent, Tops(rest), lts, [t] + lts)
  {
    var ts := [t] + rest;
    assert ts[0] == t && ts[1..] == rest;
    var (n2, lts1) := (Orphan(nodes, t.id), [t] + lts);
    assert lts1[0] == t && lts1[1..] == lts;
    RepKeys(nodes, ts, parent);
    assert Rep(nodes, t) && nodes[t.id].parent == parent;
    assert Same(nodes, n2, IdsAll(rest));
    RepSame(nodes, n2, rest, parent);
    assert Same(nodes, n2, IdsAll(lts));
    RepSame(nodes, n2, lts, None);
    assert Same(nodes, n2, IdsAll(t.kids));
    RepSame(nodes, n2, t.kids, Some(t.id));
    assert Rep(n2, t);
  }

  lemma GoneJoin(nodes: Nodes, n2: Nodes, n3: Nodes, t: Tree, rest: seq<Tree>, parent: Link, lts: seq<Tree>,
                 lts1: seq<Tree>, lts2: seq<Tree>)
    requires Ids(t) !! IdsAll(rest) && IdsAll(lts) !! Ids(t) + IdsAll(rest) && IdsAll(lts1) !! IdsAll(rest)
    requires parent.Some? ==> parent.id in nodes && parent.id !in Ids(t) + IdsAll(rest)
    requires Gone(nodes, n2, Ids(t), parent, Tops(rest), lts, lts1)
             && Gone(n2, n3, IdsAll(rest), parent, [], lts1, lts2)
    ensures Gone(nodes, n3, Ids(t) + IdsAll(rest), parent, [], lts, lts2)
  {
    forall x | x in nodes && x !in Ids(t) + IdsAll(rest) && Some(x) != parent ensures x in n3 && n3[x] == nodes[x] {
      assert x in n2;
    }
    forall x ensures x in n3 <==> x in nodes && !(x in Ids(t) + IdsAll(rest) && x !in IdsAll(lts2)) {
      assert x in n3 <==> x in n2 && !(x in IdsAll(rest) && x !in IdsAll(lts2));
    }
  }

  /** The first sibling's inodes are not those of the rest, of what is aside, or the parent. */
  lemma FirstApart(n: Nodes, t: Tree, rest: seq<Tree>, ts: seq<Tree>, ids: seq<nat>, parent: Link, lts: seq<Tree>,
                   later: seq<nat>)
    requires ts == [t] + rest && Ready(n, ts, ids, parent, lts, later)
    ensures IdsAll(ts) == Ids(t) + IdsAll(rest) && Ids(t) !! IdsAll(rest) && t.id in Ids(t)
    ensures IdsAll(lts) !! Ids(t) + IdsAll(rest)
    ensures parent.Some? ==> parent.id in n && parent.id !in Ids(t) + IdsAll(rest)
  {
    assert ts[0] == t && ts[1..] == rest;
  }

  lemma NotBack(n2: Nodes, n3: Nodes, t: Tree, rest: seq<Tree>, parent: Link, lts1: seq<Tree>, lts2: seq<Tree>)
    requires Ids(t) !! IdsAll(rest) && t.id in Ids(t) && t.id !in IdsAll(lts1)
    requires Gone(n2, n3, IdsAll(rest), parent, [], lts1, lts2)
    ensures t.id !in IdsAll(lts2)
  {
  }

  lemma OrphanFirst(fs: Fs, ids: seq<nat>, level: nat, later: seq<nat>, x: nat, rest: seq<nat>)
    requires |fs.hash| == BUCKETS && level > DEPTH && ids == [x] + rest
    ensures FreeList(fs, ids, level, later)
            == FreeList(fs.(nodes := Orphan(fs.nodes, x)), rest, level, [x] + later)
  {
    assert ids[1..] == rest;
  }

  lemma FreeFirst(fs: Fs, ids: seq<nat>, level: nat, later: seq<nat>, x: nat, rest: seq<nat>)
    requires |fs.hash| == BUCKETS && level <= DEPTH && ids == [x] + rest
    ensures var r := FreeList(fs, Kids(fs.nodes, x), level + 1, later);
            FreeList(fs, ids, level, later) == FreeList(FreeInode(r.0, x), rest, level, r.1)
  {
    assert ids[1..] == rest;
  }

  lemma FreedNodes(fs: Fs, x: nat)
    requires |fs.hash| == BUCKETS && x in fs.nodes
    ensures FreeInode(fs, x).nodes == Unlink(fs.nodes, x) - {x} && |FreeInode(fs, x).hash| == BUCKETS
  {
  }

  /** A pass frees the siblings and what is below them, all but the trees it puts aside. */
  lemma {:induction false} Pass(fs: Fs, ts: seq<Tree>, ids: seq<nat>, level: nat, parent: Link, lts: seq<Tree>,
                                later: seq<nat>)
    returns (lts': seq<Tree>)
    requires |fs.hash| == BUCKETS && Ready(fs.nodes, ts, ids, parent, lts, later)
    ensures var r := FreeList(fs, ids, level, later);
            Aside(r.0.nodes, lts', r.1) && Gone(fs.nodes, r.0.nodes, IdsAll(ts), parent, [], lts, lts')
    ensures level <= DEPTH && ts != [] ==> ts[0].id !in IdsAll(lts')
    decreases if level > DEPTH then 0 else DEPTH + 1 - level, |ids|, 1
  {
    if ts == [] {
      lts' := lts;
    } else if level > DEPTH {
      lts' := PassAside(fs, ts, ids, level, parent, lts, later, ts[0], ts[1..]);
    } else {
      lts' := PassBelow(fs, ts, ids, level, parent, lts, later, ts[0], ts[1..]);
    }
  }

  /** Past the depth limit: the first sibling is put aside, then the rest. */
  lemma {:induction false} PassAside(fs: Fs, ts: seq<Tree>, ids: seq<nat>, level: nat, parent: Link, lts: seq<Tree>,
                                     later: seq<nat>, t: Tree, rest: seq<Tree>)
    returns (lts': seq<Tree>)
    requires |fs.hash| == BUCKETS && Ready(fs.nodes, ts, ids, parent, lts, later) && ts == [t] + rest && level > DEPTH
    ensures var r := FreeList(fs, ids, level, later);
            Aside(r.0.nodes, lts', r.1) && Gone(fs.nodes, r.0.nodes, IdsAll(ts), parent, [], lts, lts')
    decreases 0, |ids|, 0
  {
    assert ids == [t.id] + Tops(rest);
    var n2 := Orphan(fs.nodes, t.id);
    OrphanFirst(fs, ids, level, later, t.id, Tops(rest));
    OrphanOne(fs.nodes, t, rest, parent, lts, later);
    lts' := Pass(fs.(nodes := n2), rest, Tops(rest), level, parent, [t] + lts, [t.id] + later);
    var n3 := FreeList(fs, ids, level, later).0.nodes;
    FirstApart(fs.nodes, t, rest, ts, ids, parent, lts, later);
    GoneJoin(fs.nodes, n2, n3, t, rest, parent, lts, [t] + lts, lts');
  }

  /** Above it: what is below the first sibling, the sibling itself, then the rest. */
  lemma {:induction false} PassBelow(fs: Fs, ts: seq<Tree>, ids: seq<nat>, level: nat, parent: Link, lts: seq<Tree>,
                                     later: seq<nat>, t: Tree, rest: seq<Tree>)
    returns (lts': seq<Tree>)
    requires |fs.hash| == BUCKETS && Ready(fs.nodes, ts, ids, parent, lts, later) && ts == [t] + rest && level <= DEPTH
    ensures var r := FreeList(fs, ids, level, later);
            Aside(r.0.nodes, lts', r.1) && Gone(fs.nodes, r.0.nodes, IdsAll(ts), parent, [], lts, lts')
    ensures t.id !in IdsAll(lts')
    decreases DEPTH + 1 - level, |ids|, 0
  {
    assert ids == [t.id] + Tops(rest);
    var n := fs.nodes;
    var r := FreeList(fs, Kids(n, t.id), level + 1, later);
    KidsReady(n, t, rest, parent, lts, later);
    var lts1 := Pass(fs, t.kids, Kids(n, t.id), level + 1, Some(t.id), lts, later);
    FreeOne(n, r.0.nodes, t, rest, parent, lts, lts1, later, r.1);
    FreedNodes(r.0, t.id);
    var fs2 := FreeInode(r.0, t.id);
    FreeFirst(fs, ids, level, later, t.id, Tops(rest));
    lts' := Pass(fs2, rest, Tops(rest), level, parent, lts1, r.1);
    var n3 := FreeList(fs, ids, level, later).0.nodes;
    FirstApart(n, t, rest, ts, ids, parent, lts, later);
    GoneJoin(n, fs2.nodes, n3, t, rest, parent, lts, lts1, lts');
    NotBack(fs2.nodes, n3, t, rest, parent, lts1, lts');
  }

  lemma KidsReady(nodes: Nodes, t: Tree, rest: seq<Tree>, parent: Link, lts: seq<Tree>, later: seq<nat>)
    requires Ready(nodes, [t] + rest, Tops([t] + rest), parent, lts, later)
    ensures Ready(nodes, t.kids, Kids(nodes, t.id), Some(t.id), lts, later)
  {
    var ts := [t] + rest;
    assert ts[0] == t && ts[1..] == rest;
    assert Rep(nodes, t);
  }

  // ----- A subtree taken out of the whole -----

  ghost function Sub(ts: seq<Tree>, x: nat): Tree
    requires x in IdsAll(ts)
    decreases ts
  {
    assert Ids(ts[0]) == {ts[0].id} + IdsAll(ts[0].kids);
    if ts[0].id == x then ts[0]
    else if x in IdsAll(ts[0].kids) then Sub(ts[0].kids, x)
    else Sub(ts[1..], x)
  }

  /** The trees with x and everything below it taken out. */
  ghost function Prune(ts: seq<Tree>, x: nat): seq<Tree>
    decreases ts
  {
    if ts == [] then []
    else if ts[0].id == x then ts[1..]
    else [Tree(ts[0].id, Prune(ts[0].kids, x))] + Prune(ts[1..], x)
  }

  lemma {:induction false} SubRep(nodes: Nodes, ts: seq<Tree>, parent: Link, x: nat)
    requires RepAll(nodes, ts, parent) && Sep(ts) && x in IdsAll(ts)
    ensures var t := Sub(ts, x);
            t.id == x && Rep(nodes, t) && x !in IdsAll(t.kids) && Sep(t.kids) && Ids(t) <= IdsAll(ts)
    decreases ts
  {
    assert Rep(nodes, ts[0]);
    if ts[0].id == x {
    } else if x in IdsAll(ts[0].kids) {
      SubRep(nodes, ts[0].kids, Some(ts[0].id), x);
    } else {
      SubRep(nodes, ts[1..], parent, x);
    }
  }

  lemma {:induction false} PruneMisses(ts: seq<Tree>, x: nat)
    requires x !in IdsAll(ts)
    ensures Prune(ts, x) == ts
    decreases ts
  {
    if ts == [] {
    } else {
      PruneMisses(ts[0].kids, x);
      PruneMisses(ts[1..], x);
      assert ts == [ts[0]] + ts[1..];
    }
  }

  lemma {:induction false} PruneIds(ts: seq<Tree>, x: nat)
    requires Sep(ts) && x in IdsAll(ts)
    ensures IdsAll(Prune(ts, x)) == IdsAll(ts) - Ids(Sub(ts, x)) && Ids(Sub(ts, x)) <= IdsAll(ts) && Sep(Prune(ts, x))
    decreases ts
  {
    var (t, rest) := (ts[0], ts[1..]);
    if t.id == x {
    } else if x in IdsAll(t.kids) {
      PruneIds(t.kids, x);
      PruneMisses(rest, x);
      var p := Prune(ts, x);
      assert p[0] == Tree(t.id, Prune(t.kids, x)) && p[1..] == rest;
    } else {
      PruneMisses(t.kids, x);
      PruneIds(rest, x);
      var p := Prune(ts, x);
      assert p[0] == t && p[1..] == Prune(rest, x);
    }
  }

  lemma {:induction false} PruneTops(ts: seq<Tree>, x: nat)
    ensures Tops(Prune(ts, x)) == Without(Tops(ts), x)
    decreases ts
  {
    if ts != [] && ts[0].id != x {
      PruneTops(ts[1..], x);
      var p := Prune(ts, x);
      assert p[0].id == ts[0].id && p[1..] == Prune(ts[1..], x);
      assert Tops(ts)[1..] == Tops(ts[1..]);
    }
  }

  function CutInode(n: Inode, x: nat): Inode {
    n.(children := Without(n.children, x))
  }

  /** Survivors are as they were, but x is in no child list. */
  ghost predicate Cut(nodes: Nodes, nodes': Nodes, gone: set<nat>, x: nat) {
    nodes'.Keys == nodes.Keys - gone && forall y :: y in nodes' ==> nodes'[y] == CutInode(nodes[y], x)
  }

  lemma {:induction false} PruneRep(nodes: Nodes, nodes': Nodes, ts: seq<Tree>, parent: Link, x: nat, gone: set<nat>)
    requires RepAll(nodes, ts, parent) && Sep(ts) && Cut(nodes, nodes', gone, x)
    requires if x in IdsAll(ts) then gone * IdsAll(ts) == Ids(Sub(ts, x)) else gone !! IdsAll(ts)
    ensures RepAll(nodes', Prune(ts, x), parent)
    decreases ts
  {
    if ts == [] {
    } else {
      var (t, rest) := (ts[0], ts[1..]);
      assert Rep(nodes, t);
      if t.id == x {
        PruneMisses(rest, x);
        PruneRep(nodes, nodes', rest, parent, x, gone);
      } else {
        if x in IdsAll(t.kids) {
          PruneIds(t.kids, x);
        } else if x in IdsAll(rest) {
          PruneIds(rest, x);
        }
        PruneRep(nodes, nodes', t.kids, Some(t.id), x, gone);
        PruneRep(nodes, nodes', rest, parent, x, gone);
        PruneTops(t.kids, x);
        var p := Prune(ts, x);
        assert p[0] == Tree(t.id, Prune(t.kids, x)) && p[1..] == Prune(rest, x);
        assert Rep(nodes', p[0]);
      }
    }
  }

  /** Only its parent lists an inode as a child. */
  lemma {:induction false} Parents(nodes: Nodes, ts: seq<Tree>, parent: Link, y: nat, x: nat)
    requires RepAll(nodes, ts, parent) && y in IdsAll(ts) && y in nodes && x in nodes[y].children
    ensures x in nodes && nodes[x].parent == Some(y)
    decreases ts
  {
    var t := ts[0];
    assert Rep(nodes, t) && Ids(t) == {t.id} + IdsAll(t.kids);
    if y == t.id {
      TopParent(nodes, t.kids, Some(y), x);
    } else if y in IdsAll(t.kids) {
      Parents(nodes, t.kids, Some(t.id), y, x);
    } else {
      Parents(nodes, ts[1..], parent, y, x);
    }
  }

  lemma {:induction false} TopParent(nodes: Nodes, ts: seq<Tree>, parent: Link, x: nat)
    requires RepAll(nodes, ts, parent) && x in Tops(ts)
    ensures x in nodes && nodes[x].parent == parent
    decreases ts
  {
    assert Rep(nodes, ts[0]);
    if x != ts[0].id {
      TopParent(nodes, ts[1..], parent, x);
    }
  }

  lemma {:induction false} WithoutMisses(s: seq<nat>, x: nat)
    requires x !in s
    ensures Without(s, x) == s
  {
    if s == [] {
    } else {
      WithoutMisses(s[1..], x);
    }
  }

  /** The inode forgotten itself, its children having been passed over. */
  lemma FreeTop(nodes: Nodes, n1: Nodes, whole: Tree, t: Tree, lts: seq<Tree>, later: seq<nat>)
    requires RepAll(nodes, [whole], None) && IdsAll([whole]) == nodes.Keys
    requires Rep(nodes, t) && t.id !in IdsAll(t.kids) && Ids(t) <= nodes.Keys
    requires nodes[t.id].parent.Some? ==> nodes[t.id].parent.id !in Ids(t)
    requires Aside(n1, lts, later) && Gone(nodes, n1, IdsAll(t.kids), Some(t.id), [], [], lts)
    ensures var n2 := Unlink(n1, t.id) - {t.id};
            Aside(n2, lts, later) && Forgetting(nodes, n2, t, lts)
  {
    var n2 := Unlink(n1, t.id) - {t.id};
    forall y | y in nodes && y !in Ids(t) ensures y in n2 && n2[y] == CutInode(nodes[y], t.id) {
      if t.id in nodes[y].children {
        Parents(nodes, [whole], None, y, t.id);
      } else {
        WithoutMisses(nodes[y].children, t.id);
      }
    }
    assert Same(n1, n2, IdsAll(lts));
    RepSame(n1, n2, lts, None);
  }

  /** All of t is gone but what is put aside; the rest is cut. */
  ghost predicate Forgetting(nodes: Nodes, nodes': Nodes, t: Tree, lts: seq<Tree>) {
    && IdsAll(lts) <= Ids(t) && nodes'.Keys == nodes.Keys - (Ids(t) - IdsAll(lts))
    && forall y :: y in nodes && y !in Ids(t) ==> y in nodes' && nodes'[y] == CutInode(nodes[y], t.id)
  }

  lemma ForgetMore(nodes: Nodes, n1: Nodes, n2: Nodes, t: Tree, lts: seq<Tree>, lts1: seq<Tree>)
    requires Forgetting(nodes, n1, t, lts) && Gone(n1, n2, IdsAll(lts), None, [], [], lts1)
    ensures Forgetting(nodes, n2, t, lts1)
  {
  }

  /** An inode's parent lies above it, never below. */
  lemma {:induction false} SubParent(nodes: Nodes, ts: seq<Tree>, parent: Link, x: nat)
    requires RepAll(nodes, ts, parent) && Sep(ts) && x in IdsAll(ts)
    ensures x in nodes && Ids(Sub(ts, x)) <= IdsAll(ts)
    ensures nodes[x].parent == parent ||
            (nodes[x].parent.Some? && nodes[x].parent.id in IdsAll(ts) && nodes[x].parent.id !in Ids(Sub(ts, x)))
    decreases ts
  {
    var t := ts[0];
    assert Rep(nodes, t) && Ids(t) == {t.id} + IdsAll(t.kids);
    if t.id == x {
    } else if x in IdsAll(t.kids) {
      SubParent(nodes, t.kids, Some(t.id), x);
    } else {
      SubParent(nodes, ts[1..], parent, x);
    }
  }

  // ----- Adding an inode -----

  /** The trees with a new leaf x, last among the children of p. */
  ghost function Grow(ts: seq<Tree>, p: nat, x: nat): seq<Tree>
    decreases ts
  {
    if ts == [] then []
    else if ts[0].id == p then [Tree(p, ts[0].kids + [Tree(x, [])])] + ts[1..]
    else [Tree(ts[0].id, Grow(ts[0].kids, p, x))] + Grow(ts[1..], p, x)
  }

  lemma {:induction false} AppendTrees(ts: seq<Tree>, t: Tree)
    ensures Tops(ts + [t]) == Tops(ts) + [t.id] && IdsAll(ts + [t]) == IdsAll(ts) + Ids(t)
    ensures Sep(ts) && IdsAll(ts) !! Ids(t) && t.id !in IdsAll(t.kids) && Sep(t.kids) ==> Sep(ts + [t])
    decreases ts
  {
    if ts != [] {
      assert (ts + [t])[0] == ts[0] && (ts + [t])[1..] == ts[1..] + [t];
      AppendTrees(ts[1..], t);
    } else {
      assert ts + [t] == [t] && [t][1..] == [];
    }
  }

  lemma {:induction false} AppendRep(nodes: Nodes, ts: seq<Tree>, t: Tree, parent: Link)
    requires RepAll(nodes, ts, parent) && Rep(nodes, t) && nodes[t.id].parent == parent
    ensures RepAll(nodes, ts + [t], parent)
    decreases ts
  {
    if ts != [] {
      assert (ts + [t])[0] == ts[0] && (ts + [t])[1..] == ts[1..] + [t];
      AppendRep(nodes, ts[1..], t, parent);
    } else {
      assert ts + [t] == [t] && [t][1..] == [];
    }
  }

  lemma {:induction false} GrowShape(ts: seq<Tree>, p: nat, x: nat)
    requires Sep(ts) && x !in IdsAll(ts)
    ensures Tops(Grow(ts, p, x)) == Tops(ts) && Sep(Grow(ts, p, x))
    ensures IdsAll(Grow(ts, p, x)) == if p in IdsAll(ts) then IdsAll(ts) + {x} else IdsAll(ts)
    decreases ts
  {
    if ts == [] {
    } else {
      var (t, rest) := (ts[0], ts[1..]);
      assert Ids(t) == {t.id} + IdsAll(t.kids);
      var g := Grow(ts, p, x);
      if t.id == p {
        AppendTrees(t.kids, Tree(x, []));
        assert g[0] == Tree(p, t.kids + [Tree(x, [])]) && g[1..] == rest;
        assert Ids(g[0]) == Ids(t) + {x};
      } else {
        GrowShape(t.kids, p, x);
        GrowShape(rest, p, x);
        assert g[0] == Tree(t.id, Grow(t.kids, p, x)) && g[1..] == Grow(rest, p, x);
      }
    }
  }

  /** The nodes with that leaf linked in. */
  function Adopt(nodes: Nodes, p: nat, x: nat, number: nat): Nodes
    requires p in nodes
  {
    nodes[p := nodes[p].(children := nodes[p].children + [x])][x := Inode(Some(p), [], number)]
  }

  /** The new inode is a leaf of its parent's, last among the children; no other inode changes. */
  lemma AdoptIs(nodes: Nodes, p: nat, x: nat, number: nat)
    requires p in nodes && x !in nodes
    ensures var n := Adopt(nodes, p, x, number);
            && n.Keys == nodes.Keys + {x} && n[x] == Inode(Some(p), [], number)
            && n[p] == Inode(nodes[p].parent, nodes[p].children + [x], nodes[p].number)
            && forall y :: y in nodes && y != p ==> n[y] == nodes[y]
  {
  }

  lemma {:induction false} GrowRep(nodes: Nodes, ts: seq<Tree>, parent: Link, p: nat, x: nat, number: nat)
    requires RepAll(nodes, ts, parent) && Sep(ts) && p in nodes && x !in nodes
    ensures RepAll(Adopt(nodes, p, x, number), Grow(ts, p, x), parent)
    decreases ts
  {
    if ts == [] {
    } else {
      var (t, rest) := (ts[0], ts[1..]);
      var nodes' := Adopt(nodes, p, x, number);
      assert Rep(nodes, t) && Ids(t) == {t.id} + IdsAll(t.kids);
      RepKeys(nodes, ts, parent);
      var g := Grow(ts, p, x);
      if t.id == p {
        assert Same(nodes, nodes', IdsAll(rest)) && Same(nodes, nodes', IdsAll(t.kids));
        RepSame(nodes, nodes', rest, parent);
        RepSame(nodes, nodes', t.kids, Some(p));
        AppendTrees(t.kids, Tree(x, []));
        AppendRep(nodes', t.kids, Tree(x, []), Some(p));
        assert g[0] == Tree(p, t.kids + [Tree(x, [])]) && g[1..] == rest;
        assert Rep(nodes', g[0]);
      } else {
        GrowRep(nodes, t.kids, Some(t.id), p, x, number);
        GrowRep(nodes, rest, parent, p, x, number);
        GrowShape(t.kids, p, x);
        assert g[0] == Tree(t.id, Grow(t.kids, p, x)) && g[1..] == Grow(rest, p, x);
        assert Rep(nodes', g[0]);
      }
    }
  }
}
