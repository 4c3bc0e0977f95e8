/** The file server: its inodes are found by number, allocated and forgotten in place. */
module FileServer {
  import opened Inodes

  class Filesystem {
    var nodes: Nodes
    var flat: seq<nat>
    var hash: seq<seq<nat>>
    var count: int
    var next: nat
    var root: nat
    ghost var tree: Tree

    ghost function View(): Fs
      reads this
    {
      Fs(nodes, flat, hash, count)
    }

    /** The inodes form one tree under the root, and every list agrees with it. */
    ghost predicate Valid()
      reads this
    {
      && FsOk(View()) && RepAll(nodes, [tree], None) && Sep([tree]) && IdsAll([tree]) == nodes.Keys
      && tree.id == root && nodes[root].number == 1
    }

    constructor (id: nat)
      ensures Valid() && root == id && nodes == map[id := Inode(None, [], 1)] && next == 2
    {
      var empty: seq<seq<nat>> := seq(BUCKETS, i => []);
      nodes := map[id := Inode(None, [], 1)];
      flat, hash, count, next, root := [id], empty[1 := [id]], 1, 2, id;
      tree := Tree(id, []);
      Single(id);
      SingleLists(id, empty);
    }

    /** The inode with a number: the root for 1, else through the hash. */
    method Lookup(number: nat) returns (r: Link)
      requires Valid()
      ensures r.Some? ==> r.id in nodes && nodes[r.id].number == number
      ensures r.None? ==> forall x :: x in nodes ==> nodes[x].number != number
    {
      if number == 1 {
        assert Rep(nodes, [tree][0]);
        return Some(root);
      }
      var bucket := hash[number % BUCKETS];
      assert BucketOk(Numbers(nodes), bucket, number % BUCKETS);
      var i := 0;
      while i < |bucket|
        invariant i <= |bucket| && forall j :: 0 <= j < i ==> bucket[j] in nodes && nodes[bucket[j]].number != number
      {
        assert bucket[i] in bucket;
        assert bucket[i] in Numbers(nodes);
        if nodes[bucket[i]].number == number {
          return Some(bucket[i]);
        }
        i := i + 1;
      }
      forall x | x in nodes ensures nodes[x].number != number {
        assert Numbers(nodes)[x] == nodes[x].number;
      }
      return None;
    }

    /** A number no live inode has. */
    method FreshNumber() returns (number: nat)
      requires Valid()
      modifies `next
      ensures Valid() && next == number + 1 && number >= old(next)
      ensures forall x :: x in nodes ==> nodes[x].number != number
      ensures forall m :: old(next) <= m < number ==> InUse(nodes, m)
    {
      number := next;
      next := next + 1;
      var r := Lookup(number);
      while r.Some?
        invariant Valid() && next == number + 1 && number >= old(next)
        invariant forall m :: old(next) <= m < number ==> InUse(nodes, m)
        invariant r.Some? ==> r.id in nodes && nodes[r.id].number == number
        invariant r.None? ==> forall x :: x in nodes ==> nodes[x].number != number
        decreases Above(nodes, number)
      {
        ghost var was := Above(nodes, number);
        ghost var x := r.id;
        number := next;
        next := next + 1;
        assert x in was && x !in Above(nodes, number);
        r := Lookup(number);
      }
    }

    /** A new inode, last among its parent's children, under a number of its own. */
    method Alloc(id: nat, parent: nat) returns (number: nat)
      requires Valid() && id !in nodes && parent in nodes
      modifies this
      ensures Valid() && root == old(root) && number >= old(next)
      ensures nodes == Adopt(old(nodes), parent, id, number)
      ensures forall x :: x in old(nodes) ==> old(nodes)[x].number != number
      ensures flat == old(flat) + [id] && count == old(count) + 1
    {
      number := FreshNumber();
      ListsAllocated(View(), id, parent, number);
      TreeAllocated(nodes, tree, id, parent, number);
      ghost var grown := Grow([tree], parent, id)[0];
      var nodes' := nodes[parent := nodes[parent].(children := nodes[parent].children + [id])];
      nodes := nodes'[id := Inode(Some(parent), [], number)];
      flat := flat + [id];
      hash := hash[number % BUCKETS := hash[number % BUCKETS] + [id]];
      count := count + 1;
      tree := grown;
    }

    /** Out of all three lists. */
    method FreeNode(x: nat)
      requires |hash| == BUCKETS
      modifies `nodes, `flat, `hash, `count
      ensures View() == FreeInode(old(View()), x)
    {
      if x in nodes {
        var b := nodes[x].number % BUCKETS;
        flat := Without(flat, x);
        hash := hash[b := Without(hash[b], x)];
        if nodes[x].parent.Some? && nodes[x].parent.id in nodes {
          var p := nodes[x].parent.id;
          nodes := nodes[p := nodes[p].(children := Without(nodes[p].children, x))];
        }
        nodes := nodes - {x};
        count := count - 1;
      }
    }

    /** One pass of bounded depth over a list of siblings. */
    method FreeChildren(ids: seq<nat>, level: nat, aside: seq<nat>) returns (later: seq<nat>)
      requires |hash| == BUCKETS
      modifies `nodes, `flat, `hash, `count
      ensures (View(), later) == FreeList(old(View()), ids, level, aside)
      decreases if level > DEPTH then 0 else DEPTH + 1 - level
    {
      ghost var all := FreeList(View(), ids, level, aside);
      later := aside;
      var i := 0;
      if level > DEPTH {
        while i < |ids|
          invariant i <= |ids| && |hash| == BUCKETS && FreeList(View(), ids[i..], level, later) == all
        {
          assert ids[i..][0] == ids[i] && ids[i..][1..] == ids[i + 1..];
          nodes := Orphan(nodes, ids[i]);
          later := [ids[i]] + later;
          i := i + 1;
        }
      } else {
        while i < |ids|
          invariant i <= |ids| && |hash| == BUCKETS && FreeList(View(), ids[i..], level, later) == all
        {
          assert ids[i..][0] == ids[i] && ids[i..][1..] == ids[i + 1..];
          later := FreeChildren(Kids(nodes, ids[i]), level + 1, later);
          FreeNode(ids[i]);
          i := i + 1;
        }
      }
      assert ids[i..] == [];
    }

    /** Forgets an inode: exactly it and all below it disappear, whatever the depth, from the
        tree and from every list; the survivors are as they were, but for the parent's list. */
    method Forget(x: nat)
      requires Valid() && x in nodes && x != root
      modifies `nodes, `flat, `hash, `count, `tree
      ensures Valid() && Cut(old(nodes), nodes, Ids(Sub([old(tree)], x)), x) && [tree] == Prune([old(tree)], x)
    {
      ghost var (whole, was) := (tree, nodes);
      ghost var t := Sub([whole], x);
      SubRep(nodes, [whole], None, x);
      SubParent(nodes, [whole], None, x);
      ghost var lts;
      var doomed;
      lts, doomed := ForgetTop(x, whole, t);
      Rounds(doomed, lts, was, t);
      Pruned(was, nodes, whole, t, x);
      tree := Prune([whole], x)[0];
    }

    /** The first pass, and the inode itself. */
    method ForgetTop(x: nat, ghost whole: Tree, ghost t: Tree) returns (ghost lts: seq<Tree>, doomed: seq<nat>)
      requires FsOk(View()) && RepAll(nodes, [whole], None) && IdsAll([whole]) == nodes.Keys
      requires t.id == x && Rep(nodes, t) && x !in IdsAll(t.kids) && Sep(t.kids) && Ids(t) <= nodes.Keys
      requires nodes[x].parent.Some? ==> nodes[x].parent.id !in Ids(t)
      modifies `nodes, `flat, `hash, `count
      ensures FsOk(View()) && Aside(nodes, lts, doomed) && Forgetting(old(nodes), nodes, t, lts)
    {
      KidsListed(nodes, t);
      lts := Pass(View(), t.kids, Kids(nodes, x), 0, Some(x), [], []);
      PassKeepsLists(View(), Kids(nodes, x), 0, []);
      doomed := FreeChildren(Kids(nodes, x), 0, []);
      FreeTop(old(nodes), nodes, whole, t, lts, doomed);
      FreeKeepsLists(View(), x);
      FreeNode(x);
    }

    /** Passes over what was put aside, between two lists in turn, until nothing is. */
    method Rounds(list: seq<nat>, ghost start: seq<Tree>, ghost was: Nodes, ghost t: Tree)
      requires FsOk(View()) && Aside(nodes, start, list) && Forgetting(was, nodes, t, start)
      modifies `nodes, `flat, `hash, `count
      ensures FsOk(View()) && Forgetting(was, nodes, t, [])
    {
      var doomed := list;
      ghost var lts := start;
      while doomed != []
        invariant FsOk(View()) && Aside(nodes, lts, doomed) && Forgetting(was, nodes, t, lts)
        decreases IdsAll(lts)
      {
        ghost var lts1;
        var more;
        lts1, more := Round(doomed, lts, was, t);
        if more == [] {
          return;
        }
        lts, doomed := Round(more, lts1, was, t);
      }
    }

    /** A pass over what was put aside: it frees some of it and puts the rest aside again. */
    method Round(list: seq<nat>, ghost lts: seq<Tree>, ghost was: Nodes, ghost t: Tree)
      returns (ghost lts1: seq<Tree>, later: seq<nat>)
      requires FsOk(View()) && list != [] && Aside(nodes, lts, list) && Forgetting(was, nodes, t, lts)
      modifies `nodes, `flat, `hash, `count
      ensures FsOk(View()) && Aside(nodes, lts1, later) && Forgetting(was, nodes, t, lts1) && IdsAll(lts1) < IdsAll(lts)
    {
      assert IdsAll([]) == {} && Sep([]) && RepAll(nodes, [], None);
      lts1 := Pass(View(), lts, list, 0, None, [], []);
      PassKeepsLists(View(), list, 0, []);
      ghost var before := nodes;
      later := FreeChildren(list, 0, []);
      ForgetMore(was, before, nodes, t, lts, lts1);
      assert lts[0].id in Ids(lts[0]) && Ids(lts[0]) <= IdsAll(lts);
    }
  }

  lemma KidsListed(nodes: Nodes, t: Tree)
    requires Rep(nodes, t) && t.id !in IdsAll(t.kids) && Sep(t.kids)
    ensures Ready(nodes, t.kids, Kids(nodes, t.id), Some(t.id), [], [])
  {
    assert IdsAll([]) == {};
  }

  /** With nothing left aside, what remains is the pruned tree. */
  lemma Pruned(nodes: Nodes, nodes': Nodes, whole: Tree, t: Tree, x: nat)
    requires RepAll(nodes, [whole], None) && Sep([whole]) && IdsAll([whole]) == nodes.Keys
    requires x in nodes && x != whole.id && t == Sub([whole], x) && t.id == x && Forgetting(nodes, nodes', t, [])
    ensures Cut(nodes, nodes', Ids(t), x)
    ensures var p := Prune([whole], x);
            |p| == 1 && p[0].id == whole.id && RepAll(nodes', [p[0]], None) && Sep([p[0]])
                && IdsAll([p[0]]) == nodes'.Keys
  {
    assert [whole][1..] == [] && Prune([], x) == [];
    PruneIds([whole], x);
    PruneRep(nodes, nodes', [whole], None, x, Ids(t));
    var p := Prune([whole], x);
    assert p == [p[0]];
  }

  /** Some live inode has this number. */
  ghost predicate InUse(nodes: Nodes, m: nat) {
    exists x :: x in nodes && nodes[x].number == m
  }

  ghost function Above(nodes: Nodes, n: nat): set<nat> {
    set x | x in nodes && nodes[x].number >= n
  }

  lemma GrownOne(tree: Tree, parent: nat, id: nat)
    ensures var g := Grow([tree], parent, id); |g| == 1 && g == [g[0]] && g[0].id == tree.id
  {
    assert [tree][1..] == [] && Grow([], parent, id) == [];
  }

  lemma ListsAllocated(fs: Fs, id: nat, parent: nat, number: nat)
    requires FsOk(fs) && id !in fs.nodes && parent in fs.nodes && forall x :: x in fs.nodes ==>
               fs.nodes[x].number != number
    ensures FsOk(Fs(Adopt(fs.nodes, parent, id, number), fs.flat + [id],
                    fs.hash[number % BUCKETS := fs.hash[number % BUCKETS] + [id]], fs.count + 1))
  {
    var num := Numbers(fs.nodes);
    FlatAdd(num, fs.flat, fs.count, id, number);
    HashAdd(num, fs.hash, id, number);
    assert Numbers(Adopt(fs.nodes, parent, id, number)) == num[id := number];
    assert Unique(num[id := number]);
  }

  lemma TreeAllocated(nodes: Nodes, tree: Tree, id: nat, parent: nat, number: nat)
    requires RepAll(nodes, [tree], None) && Sep([tree]) && IdsAll([tree]) == nodes.Keys && id !in nodes
             && parent in nodes
    ensures var (n, g) := (Adopt(nodes, parent, id, number), Grow([tree], parent, id));
            |g| == 1 && g[0].id == tree.id && RepAll(n, [g[0]], None) && Sep([g[0]]) && IdsAll([g[0]]) == n.Keys
  {
    GrownOne(tree, parent, id);
    GrowRep(nodes, [tree], None, parent, id, number);
    GrowShape([tree], parent, id);
  }

  lemma Single(id: nat)
    ensures var n: Nodes := map[id := Inode(None, [], 1)];
            RepAll(n, [Tree(id, [])], None) && Sep([Tree(id, [])]) && IdsAll([Tree(id, [])]) == n.Keys
  {
    var (t, n) := (Tree(id, []), map[id := Inode(None, [], 1)]);
    assert [t][1..] == [] && Tops([]) == [] && IdsAll([]) == {};
    assert Ids(t) == {id};
    assert Rep(n, t);
  }

  lemma SingleLists(id: nat, empty: seq<seq<nat>>)
    requires |empty| == BUCKETS && forall b :: 0 <= b < BUCKETS ==> empty[b] == []
    ensures FsOk(Fs(map[id := Inode(None, [], 1)], [id], empty[1 := [id]], 1))
  {
    FlatAdd(map[], [], 0, id, 1);
    HashAdd(map[], empty, id, 1);
    assert Numbers(map[id := Inode(None, [], 1)]) == map[id := 1] == map[][id := 1];
    assert [] + [id] == [id];
  }
}
