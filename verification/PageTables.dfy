/** Four-level x86-64 page tables over machine memory: the walk, a self-contained tree of
    tables, and adding a 4 KB mapping to it. */
module PageTables {

  /** One page of memory as 512 eight-byte words. */
  type Table = seq<nat>

  type Memory = map<nat, Table>

  const ENTRIES: nat := 512
  const FRAMES: nat := 0x100_0000_0000   // 2^40: bits 51:12 of an entry
  const PAGES: nat := 0x10_0000_0000     // 2^36: pages of the 48-bit space
  const PSE: nat := 0x80
  const KERNPG: nat := 0x63              // present, writable, accessed, dirty

  predicate Present(e: nat) {
    e % 2 == 1
  }

  predicate Large(e: nat) {
    e / PSE % 2 == 1
  }

  function Frame(e: nat): nat {
    e / 4096 % FRAMES
  }

  /** Everything in an entry but its frame. */
  function Flags(e: nat): nat {
    e - Frame(e) * 4096
  }

  function Entry(frame: nat, flags: nat): nat {
    frame * 4096 + flags
  }

  lemma Whole(e: nat)
    ensures Entry(Frame(e), Flags(e)) == e
  {
  }

  lemma LowBits(x: nat, lo: nat)
    requires lo < 4096
    ensures (x * 4096 + lo) / 4096 == x
    ensures Present(x * 4096 + lo) == Present(lo)
  {
    assert x * 4096 + lo == 2 * (x * 2048) + lo;
  }

  lemma Quotient(y: nat, lo: nat)
    ensures (y * PSE + lo) / PSE == y + lo / PSE
  {
  }

  lemma Parity(a: nat, l: nat)
    ensures (2 * a + l) % 2 == l % 2
  {
  }

  lemma LargeBit(x: nat, lo: nat)
    requires lo < 4096
    ensures Large(x * 4096 + lo) == Large(lo)
  {
    Quotient(x * 32, lo);
    Parity(x * 16, lo / PSE);
  }

  lemma Split(hi: nat, frame: nat, lo: nat)
    requires frame < FRAMES && lo < 4096
    ensures var e := (hi * FRAMES + frame) * 4096 + lo;
            && Frame(e) == frame && Flags(e) == hi * FRAMES * 4096 + lo
            && Present(e) == Present(lo) && Large(e) == Large(lo)
  {
    LowBits(hi * FRAMES + frame, lo);
    LargeBit(hi * FRAMES + frame, lo);
  }

  /** Replacing an entry's frame keeps its other bits. */
  lemma EntryParts(frame: nat, e: nat)
    requires frame < FRAMES
    ensures Frame(Entry(frame, Flags(e))) == frame && Flags(Entry(frame, Flags(e))) == Flags(e)
    ensures Present(Entry(frame, Flags(e))) == Present(e) && Large(Entry(frame, Flags(e))) == Large(e)
  {
    Split(e / 4096 / FRAMES, Frame(e), e % 4096);
    Split(e / 4096 / FRAMES, frame, e % 4096);
  }

  /** The fields of an entry: bits 51:12 name the frame, bit 0 says present and bit 7 large; the bits
      above and below the frame are the flags. */
  lemma EntryFields(high: nat, frame: nat, low: nat, present: nat, mid: nat, large: nat)
    requires frame < 0x100_0000_0000 && low < 16 && mid < 64 && present < 2 && large < 2
    ensures var flags := low * 256 + large * 128 + mid * 2 + present;
            var e := high * 0x10_0000_0000_0000 + frame * 0x1000 + flags;
            && Frame(e) == frame && Flags(e) == high * 0x10_0000_0000_0000 + flags
            && (Present(e) <==> present == 1) && (Large(e) <==> large == 1)
  {
    var flags := low * 256 + large * 128 + mid * 2 + present;
    Split(high, frame, flags);
    assert flags % 2 == present;
    assert flags / 128 == low * 2 + large;
  }

  /** Pages covered by one entry of a table at this level. */
  function Unit(level: nat): nat
    requires level < 4
  {
    if level == 0 then 0x800_0000 else if level == 1 then 0x4_0000 else if level == 2 then 512 else 1
  }

  /** The index of virtual page v, within the 48-bit space, at each level. */
  function Index(v: nat, level: nat): (i: nat)
    requires level < 4
    ensures i < ENTRIES
  {
    v / Unit(level) % ENTRIES
  }

  lemma Digit(x: nat, d: nat)
    requires d < 512
    ensures (x * 512 + d) / 512 == x && (x * 512 + d) % 512 == d
  {
  }

  lemma Levels(v: nat)
    ensures v / 0x4_0000 == v / 512 / 512 && v / 0x800_0000 == v / 512 / 512 / 512
  {
  }

  /** The indices are the nine-bit digits of the page number, the top level's first. */
  lemma IndexDigits(a: nat, b: nat, c: nat, d: nat)
    requires a < 512 && b < 512 && c < 512 && d < 512
    ensures var v := ((a * 512 + b) * 512 + c) * 512 + d;
            Index(v, 0) == a && Index(v, 1) == b && Index(v, 2) == c && Index(v, 3) == d
  {
    var ab := a * 512 + b;
    var abc := ab * 512 + c;
    Digit(a, b);
    Digit(ab, c);
    Digit(abc, d);
    Levels(abc * 512 + d);
  }

  datatype Walked = Missing(level: nat) | Leaf(level: nat, frame: nat, path: seq<nat>) | Outside

  /** The walk from one table down; path collects the flags of the entries passed. */
  function Walk(mem: Memory, f: nat, level: nat, v: nat, path: seq<nat>): Walked
    requires level < 4
    decreases 4 - level
  {
    if f !in mem || |mem[f]| != ENTRIES then Outside
    else
      var e := mem[f][Index(v, level)];
      var p := path + [Flags(e)];
      if !Present(e) then Missing(level)
      else if level == 3 || Large(e) then Leaf(level, Frame(e), p)
      else Walk(mem, Frame(e), level + 1, v, p)
  }

  lemma WalkStep(mem: Memory, f: nat, level: nat, v: nat, path: seq<nat>, e: nat)
    requires level < 3 && f in mem && |mem[f]| == ENTRIES && mem[f][Index(v, level)] == e
    requires Present(e) && !Large(e)
    ensures Walk(mem, f, level, v, path) == Walk(mem, Frame(e), level + 1, v, path + [Flags(e)])
  {
  }

  lemma WalkStop(mem: Memory, f: nat, mem': Memory, g: nat, level: nat, v: nat, path: seq<nat>)
    requires level < 3 && f in mem && |mem[f]| == ENTRIES && g in mem' && |mem'[g]| == ENTRIES
    requires mem[f][Index(v, level)] == mem'[g][Index(v, level)]
    requires !Present(mem[f][Index(v, level)]) || Large(mem[f][Index(v, level)])
    ensures Walk(mem, f, level, v, path) == Walk(mem', g, level, v, path)
  {
  }

  // ----- A tree of tables -----

  /** Which table of the tree a frame holds: its level and the pages it covers. */
  datatype Place = Place(level: nat, prefix: nat)

  type Tree = map<nat, Place>

  ghost predicate LinkOk(tree: Tree, at: Place, i: nat, e: nat) {
    Present(e) && at.level < 3 ==>
      && (at.level == 0 ==> !Large(e))
      && (!Large(e) ==> Frame(e) in tree && tree[Frame(e)] == Place(at.level + 1, at.prefix * ENTRIES + i))
  }

  ghost predicate TableOk(mem: Memory, tree: Tree, f: nat)
    requires f in tree
  {
    && f in mem && |mem[f]| == ENTRIES && tree[f].level < 4
    && forall i {:trigger LinkOk(tree, tree[f], i, mem[f][i])} :: 0 <= i < ENTRIES ==>
         LinkOk(tree, tree[f], i, mem[f][i])
  }

  /** Every table reachable from the root is in the tree, at one place only. */
  ghost predicate TreeOk(mem: Memory, tree: Tree, root: nat) {
    && root in tree && tree[root] == Place(0, 0)
    && forall f {:trigger TableOk(mem, tree, f)} :: f in tree ==> TableOk(mem, tree, f)
  }

  ghost predicate Agree(mem: Memory, mem': Memory, tree: Tree) {
    forall f :: f in tree && f in mem ==> f in mem' && mem'[f] == mem[f]
  }

  /** A walk inside the tree depends on the tree's tables alone. */
  lemma {:induction false} WalkLocal(mem: Memory, mem': Memory, tree: Tree, root: nat, f: nat, v: nat, path: seq<nat>)
    requires TreeOk(mem, tree, root) && Agree(mem, mem', tree) && f in tree
    requires tree[f].level < 4
    ensures Walk(mem', f, tree[f].level, v, path) == Walk(mem, f, tree[f].level, v, path)
    decreases 4 - tree[f].level
  {
    var level := tree[f].level;
    assert TableOk(mem, tree, f);
    var e := mem[f][Index(v, level)];
    assert LinkOk(tree, tree[f], Index(v, level), e);
    if Present(e) && level < 3 && !Large(e) {
      WalkLocal(mem, mem', tree, root, Frame(e), v, path + [Flags(e)]);
    }
  }

  lemma TreeLocal(mem: Memory, mem': Memory, tree: Tree, root: nat)
    requires TreeOk(mem, tree, root) && Agree(mem, mem', tree)
    ensures TreeOk(mem', tree, root)
  {
    forall f | f in tree ensures TableOk(mem', tree, f) {
      assert TableOk(mem, tree, f);
    }
  }

  // ----- Adding to a tree -----

  /** The part of page number v that a table at this level is chosen by. */
  function Prefix(v: nat, level: nat): nat
    requires level < 4
  {
    if level == 0 then 0 else v / Unit(level - 1)
  }

  lemma PrefixNext(v: nat, level: nat)
    requires level < 3 && v < PAGES
    ensures Prefix(v, level + 1) == Prefix(v, level) * ENTRIES + Index(v, level)
  {
  }

  lemma PrefixPage(v: nat, w: nat)
    requires Prefix(v, 3) == Prefix(w, 3) && Index(v, 3) == Index(w, 3)
    ensures v == w
  {
  }

  /** The table a walk stands at after k levels. */
  datatype Reached = Stopped | At(frame: nat, path: seq<nat>)

  function Reach(mem: Memory, root: nat, v: nat, k: nat): Reached
    requires k < 4
  {
    if k == 0 then At(root, [])
    else match Reach(mem, root, v, k - 1)
      case Stopped => Stopped
      case At(f, path) =>
        if f !in mem || |mem[f]| != ENTRIES then Stopped
        else
          var e := mem[f][Index(v, k - 1)];
          if Present(e) && !Large(e) then At(Frame(e), path + [Flags(e)]) else Stopped
  }

  lemma {:induction false} WalkFromReach(mem: Memory, root: nat, v: nat, k: nat)
    requires k < 4 && Reach(mem, root, v, k).At?
    ensures var r := Reach(mem, root, v, k);
            Walk(mem, root, 0, v, []) == Walk(mem, r.frame, k, v, r.path)
  {
    if k > 0 {
      WalkFromReach(mem, root, v, k - 1);
    }
  }

  lemma {:induction false} ReachPlace(mem: Memory, tree: Tree, root: nat, v: nat, k: nat)
    requires TreeOk(mem, tree, root) && v < PAGES && k < 4 && Reach(mem, root, v, k).At?
    ensures var f := Reach(mem, root, v, k).frame;
            f in tree && tree[f] == Place(k, Prefix(v, k))
  {
    if k > 0 {
      ReachPlace(mem, tree, root, v, k - 1);
      var f := Reach(mem, root, v, k - 1).frame;
      assert TableOk(mem, tree, f);
      assert LinkOk(tree, tree[f], Index(v, k - 1), mem[f][Index(v, k - 1)]);
      PrefixNext(v, k - 1);
    }
  }

  /** Changing tables at level k or below leaves the way down to level k. */
  lemma {:induction false} ReachAbove(mem: Memory, mem': Memory, tree: Tree, root: nat, v: nat, k: nat)
    requires TreeOk(mem, tree, root) && v < PAGES && k < 4 && Reach(mem, root, v, k).At?
    requires forall f :: f in tree && tree[f].level < k ==> f in mem && f in mem' && mem'[f] == mem[f]
    ensures Reach(mem', root, v, k) == Reach(mem, root, v, k)
  {
    if k > 0 {
      ReachAbove(mem, mem', tree, root, v, k - 1);
      ReachPlace(mem, tree, root, v, k - 1);
    }
  }

  function Put(mem: Memory, f: nat, i: nat, e: nat): (m: Memory)
    requires f in mem && i < |mem[f]|
  {
    var t: Table := mem[f][i := e];
    mem[f := t]
  }

  /** What an address means: its leaf, or nothing. */
  function Meaning(mem: Memory, root: nat, v: nat): Walked {
    var w := Walk(mem, root, 0, v, []);
    if w.Leaf? then w else Missing(0)
  }

  predicate Empty(t: Table) {
    |t| == ENTRIES && forall i :: 0 <= i < ENTRIES ==> t[i] == 0
  }

  /** A table's entry is present, writable, accessed and dirty. */
  lemma KernpgIs()
    ensures KERNPG == 0x01 + 0x02 + 0x20 + 0x40 && PAGES == 512 * 512 * 512 * 512
  {
  }

  lemma KernpgEntry(n: nat)
    requires n < FRAMES
    ensures var e := Entry(n, KERNPG);
            Present(e) && !Large(e) && Frame(e) == n && Flags(e) == KERNPG
  {
    Split(0, n, KERNPG);
  }

  /** Hanging an empty table on an absent entry keeps the tree. */
  lemma LinkTree(mem: Memory, tree: Tree, root: nat, f: nat, i: nat, n: nat)
    requires TreeOk(mem, tree, root) && f in tree && tree[f].level < 3 && i < ENTRIES
    requires f in mem && |mem[f]| == ENTRIES
    requires n !in tree && n in mem && Empty(mem[n]) && n < FRAMES
    ensures TreeOk(Put(mem, f, i, Entry(n, KERNPG)), tree[n := Place(tree[f].level + 1,
            tree[f].prefix * ENTRIES + i)], root)
  {
    var mem' := Put(mem, f, i, Entry(n, KERNPG));
    var tree' := tree[n := Place(tree[f].level + 1, tree[f].prefix * ENTRIES + i)];
    KernpgEntry(n);
    forall g | g in tree' ensures TableOk(mem', tree', g) {
      if g != n {
        assert TableOk(mem, tree, g);
        forall j | 0 <= j < ENTRIES ensures LinkOk(tree', tree'[g], j, mem'[g][j]) {
          assert LinkOk(tree, tree[g], j, mem[g][j]);
        }
      }
    }
  }

  /** ... and no address gains or loses a meaning by it. */
  lemma {:induction false} LinkWalk(mem: Memory, tree: Tree, root: nat, f: nat, i: nat, n: nat, g: nat, v: nat,
                                    path: seq<nat>)
    requires TreeOk(mem, tree, root) && f in tree && tree[f].level < 3 && i < ENTRIES
    requires f in mem && |mem[f]| == ENTRIES && !Present(mem[f][i])
    requires n !in tree && n in mem && Empty(mem[n]) && n < FRAMES
    requires g in tree && tree[g].level < 4
    ensures var (w, w') := (Walk(mem, g, tree[g].level, v, path),
                            Walk(Put(mem, f, i, Entry(n, KERNPG)), g, tree[g].level, v, path));
            w' == w || (w.Missing? && w'.Missing?)
    decreases 4 - tree[g].level
  {
    var level := tree[g].level;
    assert TableOk(mem, tree, g);
    var e := mem[g][Index(v, level)];
    assert LinkOk(tree, tree[g], Index(v, level), e);
    if g == f && Index(v, level) == i {
      KernpgEntry(n);
    } else if Present(e) && level < 3 && !Large(e) {
      LinkWalk(mem, tree, root, f, i, n, Frame(e), v, path + [Flags(e)]);
    }
  }

  /** Writing a last-level entry keeps the tree and every other page's walk. */
  lemma LeafTree(mem: Memory, tree: Tree, root: nat, f: nat, i: nat, e: nat)
    requires TreeOk(mem, tree, root) && f in tree && tree[f].level == 3 && i < ENTRIES
    requires f in mem && |mem[f]| == ENTRIES
    ensures TreeOk(Put(mem, f, i, e), tree, root)
  {
    var mem' := Put(mem, f, i, e);
    forall g | g in tree ensures TableOk(mem', tree, g) {
      assert TableOk(mem, tree, g);
    }
  }

  lemma {:induction false} LeafWalk(mem: Memory, tree: Tree, root: nat, f: nat, i: nat, e: nat, g: nat, v: nat,
                                    path: seq<nat>)
    requires TreeOk(mem, tree, root) && f in tree && tree[f].level == 3 && i < ENTRIES
    requires f in mem && |mem[f]| == ENTRIES && v < PAGES
    requires g in tree && tree[g].level < 4 && tree[g].prefix == Prefix(v, tree[g].level)
    requires tree[f].prefix != Prefix(v, 3) || Index(v, 3) != i
    ensures Walk(Put(mem, f, i, e), g, tree[g].level, v, path) == Walk(mem, g, tree[g].level, v, path)
    decreases 4 - tree[g].level
  {
    var level := tree[g].level;
    assert TableOk(mem, tree, g);
    var x := mem[g][Index(v, level)];
    assert LinkOk(tree, tree[g], Index(v, level), x);
    if Present(x) && level < 3 && !Large(x) {
      PrefixNext(v, level);
      LeafWalk(mem, tree, root, f, i, e, Frame(x), v, path + [Flags(x)]);
    }
  }

  /** No address's meaning differs. */
  ghost predicate SameMeaning(mem: Memory, mem': Memory, root: nat) {
    forall w: nat :: Meaning(mem', root, w) == Meaning(mem, root, w)
  }

  lemma LocalMeaning(mem: Memory, mem': Memory, tree: Tree, root: nat)
    requires TreeOk(mem, tree, root) && Agree(mem, mem', tree)
    ensures SameMeaning(mem, mem', root)
  {
    forall w: nat ensures Meaning(mem', root, w) == Meaning(mem, root, w) {
      WalkLocal(mem, mem', tree, root, root, w, []);
    }
  }

  lemma LinkMeaning(mem: Memory, tree: Tree, root: nat, f: nat, i: nat, n: nat)
    requires TreeOk(mem, tree, root) && f in tree && tree[f].level < 3 && i < ENTRIES
    requires f in mem && |mem[f]| == ENTRIES && !Present(mem[f][i])
    requires n !in tree && n in mem && Empty(mem[n]) && n < FRAMES
    ensures SameMeaning(mem, Put(mem, f, i, Entry(n, KERNPG)), root)
  {
    forall w: nat ensures Meaning(Put(mem, f, i, Entry(n, KERNPG)), root, w) == Meaning(mem, root, w) {
      LinkWalk(mem, tree, root, f, i, n, root, w, []);
    }
  }

  lemma LinkReach(mem: Memory, tree: Tree, root: nat, v: nat, level: nat, f: nat, n: nat, path: seq<nat>)
    requires TreeOk(mem, tree, root) && v < PAGES && level < 3 && n < FRAMES
    requires Reach(mem, root, v, level) == At(f, path)
    requires f in mem && |mem[f]| == ENTRIES
    ensures Reach(Put(mem, f, Index(v, level), Entry(n, KERNPG)), root, v, level + 1) == At(n, path + [KERNPG])
  {
    ReachPlace(mem, tree, root, v, level);
    var mem' := Put(mem, f, Index(v, level), Entry(n, KERNPG));
    forall g | g in tree && tree[g].level < level ensures g in mem && g in mem' && mem'[g] == mem[g] {
      assert TableOk(mem, tree, g);
    }
    ReachAbove(mem, mem', tree, root, v, level);
    KernpgEntry(n);
  }

  lemma LinkAll(mem: Memory, mem': Memory, tree: Tree, tree': Tree, root: nat, v: nat, level: nat, f: nat, n: nat,
                path: seq<nat>)
    requires TreeOk(mem, tree, root) && v < PAGES && level < 3 && Reach(mem, root, v, level) == At(f, path)
    requires f in tree && f in mem && |mem[f]| == ENTRIES && !Present(mem[f][Index(v, level)])
    requires n !in tree && n in mem && Empty(mem[n]) && n < FRAMES
    requires mem' == Put(mem, f, Index(v, level), Entry(n, KERNPG))
    requires tree' == tree[n := Place(tree[f].level + 1, tree[f].prefix * ENTRIES + Index(v, level))]
    ensures TreeOk(mem', tree', root) && SameMeaning(mem, mem', root)
    ensures Reach(mem', root, v, level + 1) == At(n, path + [KERNPG])
  {
    ReachPlace(mem, tree, root, v, level);
    LinkTree(mem, tree, root, f, Index(v, level), n);
    LinkMeaning(mem, tree, root, f, Index(v, level), n);
    LinkReach(mem, tree, root, v, level, f, n, path);
  }

  /** Every page but v keeps its meaning. */
  ghost predicate OnlyChanges(mem: Memory, mem': Memory, root: nat, v: nat) {
    forall w: nat :: w < PAGES && w != v ==> Meaning(mem', root, w) == Meaning(mem, root, w)
  }

  lemma LeafMeaning(mem: Memory, tree: Tree, root: nat, v: nat, f: nat, e: nat, path: seq<nat>)
    requires TreeOk(mem, tree, root) && v < PAGES && Reach(mem, root, v, 3) == At(f, path)
    requires f in tree && f in mem && |mem[f]| == ENTRIES
    ensures var mem' := Put(mem, f, Index(v, 3), e);
            && OnlyChanges(mem, mem', root, v)
            && Meaning(mem', root, v) == if Present(e) then Leaf(3, Frame(e), path + [Flags(e)]) else Missing(0)
  {
    var mem' := Put(mem, f, Index(v, 3), e);
    ReachPlace(mem, tree, root, v, 3);
    forall w: nat | w < PAGES && w != v ensures Meaning(mem', root, w) == Meaning(mem, root, w) {
      if Prefix(w, 3) == Prefix(v, 3) && Index(w, 3) == Index(v, 3) {
        PrefixPage(v, w);
      }
      LeafWalk(mem, tree, root, f, Index(v, 3), e, root, w, []);
    }
    forall g | g in tree && tree[g].level < 3 ensures g in mem && g in mem' && mem'[g] == mem[g] {
      assert TableOk(mem, tree, g);
    }
    ReachAbove(mem, mem', tree, root, v, 3);
    WalkFromReach(mem', root, v, 3);
  }

  ghost predicate SameWalks(mem: Memory, mem': Memory, root: nat) {
    forall w: nat :: Walk(mem', root, 0, w, []) == Walk(mem, root, 0, w, [])
  }

  lemma LocalWalks(mem: Memory, mem': Memory, tree: Tree, root: nat)
    requires TreeOk(mem, tree, root) && Agree(mem, mem', tree)
    ensures SameWalks(mem, mem', root)
  {
    forall w: nat ensures Walk(mem', root, 0, w, []) == Walk(mem, root, 0, w, []) {
      WalkLocal(mem, mem', tree, root, root, w, []);
    }
  }
}
