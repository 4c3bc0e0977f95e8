/** The loader's page tables in guest memory: the reserved table frames, mapping pages, and
    adopting the kernel's own root by grafting the loader's tree into it. */
module Graft {
  import opened PageTables

  const KERNEL_MAP: nat := 0xffff_ffff_8000_0000
  const SLOT: nat := 511     // the top-level index of KERNEL_MAP

  datatype Result<T> = Ok(value: T) | Failed | OutOfMemory | Invalid

  ghost predicate Differ(p2m: seq<nat>, i: nat, j: nat)
    requires i < |p2m| && j < |p2m|
  {
    p2m[i] != p2m[j]
  }

  /** Backed pages have distinct machine frames, none of them frame zero. */
  ghost predicate FramesOk(p2m: seq<nat>, backed: nat) {
    && backed <= |p2m|
    && (forall i :: 0 <= i < |p2m| ==> p2m[i] < FRAMES)
    && (forall i :: 0 <= i < backed ==> p2m[i] != 0)
    && forall i, j {:trigger Differ(p2m, i, j)} :: 0 <= i < j < backed ==> Differ(p2m, i, j)
  }

  /** Machine memory holds every backed page, at its own frame. */
  ghost predicate MemOk(mem: Memory, p2m: seq<nat>, backed: nat)
    requires backed <= |p2m|
  {
    && (forall i :: 0 <= i < backed ==> p2m[i] in mem)
    && forall f :: f in mem ==> |mem[f]| == ENTRIES
  }

  /** The tree's tables are among the frames handed out, those of pages top up to end. */
  ghost predicate Reserved(tree: Tree, p2m: seq<nat>, top: nat, end: nat)
    requires top <= end <= |p2m|
  {
    forall f :: f in tree ==> f in p2m[top..end]
  }

  function Zeros(): (t: Table)
    ensures Empty(t)
  {
    seq(ENTRIES, i => 0)
  }

  lemma NotReserved(p2m: seq<nat>, backed: nat, top: nat, end: nat, page: nat)
    requires FramesOk(p2m, backed) && top <= end <= backed && page < backed && !(top <= page < end)
    ensures p2m[page] !in p2m[top..end]
  {
    forall j | top <= j < end ensures p2m[j] != p2m[page] {
      assert Differ(p2m, j, page) || Differ(p2m, page, j);
    }
  }

  lemma Apart(p2m: seq<nat>, backed: nat, i: nat, j: nat)
    requires FramesOk(p2m, backed) && i < backed && j < backed && i != j
    ensures p2m[i] != p2m[j]
  {
    assert Differ(p2m, i, j) || Differ(p2m, j, i);
  }

  lemma PutOk(mem: Memory, p2m: seq<nat>, backed: nat, f: nat, i: nat, e: nat)
    requires backed <= |p2m| && MemOk(mem, p2m, backed) && f in mem && i < ENTRIES
    ensures MemOk(Put(mem, f, i, e), p2m, backed)
  {
  }

  /** Bits 63 to 47 are all the same. */
  predicate Canonical(va: nat) {
    var top := va / 0x8000_0000_0000;
    top == 0 || top == 0x1_ffff
  }

  /** Page v lies under a mapping of more than 4 KB. */
  ghost predicate UnderLarge(mem: Memory, root: nat, v: nat) {
    Meaning(mem, root, v).Leaf? && Meaning(mem, root, v).level < 3
  }

  lemma NotUnderLarge(mem: Memory, root: nat, v: nat, k: nat, f: nat)
    requires k < 4 && Reach(mem, root, v, k).At? && Reach(mem, root, v, k).frame == f
    requires k == 3 || (f in mem && |mem[f]| == ENTRIES && !Present(mem[f][Index(v, k)]))
    ensures !UnderLarge(mem, root, v)
  {
    WalkFromReach(mem, root, v, k);
  }

  class Guest {
    const p2m: seq<nat>
    const backed: nat
    const start: nat      // first page of the reserved table range
    const end: nat        // first page after it
    var mem: Memory
    var top: nat
    var spaced: bool      // whether the loader's space exists
    var root: nat
    ghost var tree: Tree

    ghost predicate Valid()
      reads this
    {
      && FramesOk(p2m, backed) && MemOk(mem, p2m, backed)
      && start <= top <= end <= backed
      && Reserved(tree, p2m, top, end)
      && (spaced ==> TreeOk(mem, tree, root))
    }

    constructor (ram: Memory, frames: seq<nat>, pages: nat, tableStart: nat, tableEnd: nat)
      requires FramesOk(frames, pages) && MemOk(ram, frames, pages) && tableStart <= tableEnd <= pages
      ensures Valid() && !spaced && mem == ram && p2m == frames && backed == pages
      ensures start == tableStart && end == tableEnd && top == tableEnd && tree == map[]
    {
      p2m, backed, start, end := frames, pages, tableStart, tableEnd;
      mem, top, spaced, root := ram, tableEnd, false, 0;
      tree := map[];
    }

    /** A zeroed frame from the top of the reserved range, never given out before (the frames
        given out are those of pages top up to end); refused exactly when the range is used
        up, and then nothing changes. */
    method TableFrame() returns (r: Result<nat>)
      requires Valid()
      modifies this
      ensures Valid() && spaced == old(spaced) && root == old(root) && tree == old(tree)
      ensures r.Ok? <==> old(top) > start
      ensures r.Ok? ==> top == old(top) - 1 && r.value !in p2m[old(top)..end]
      ensures r.Ok? ==> r.value == p2m[top] && r.value !in tree && Empty(mem[r.value])
      ensures r.Ok? ==> mem == old(mem)[r.value := mem[r.value]] && r.value in old(mem)
      ensures !r.Ok? ==> mem == old(mem) && top == old(top)
    {
      if backed == 0 {
        return Failed;
      }
      if top < start + 1 {
        return OutOfMemory;
      }
      top := top - 1;
      var frame := p2m[top];
      NotReserved(p2m, backed, top + 1, end, top);
      mem := mem[frame := Zeros()];
      assert p2m[top..end] == [frame] + p2m[top + 1..end];
      if spaced {
        TreeLocal(old(mem), mem, tree, root);
      }
      r := Ok(frame);
    }

    /** An empty space: no address means anything. */
    method CreateSpace() returns (r: Result<nat>)
      requires Valid()
      modifies this
      ensures Valid()
      ensures r.Ok? <==> old(top) > start
      ensures r.Ok? ==> spaced && root == r.value && forall v :: Meaning(mem, root, v) == Missing(0)
      ensures !r.Ok? ==> spaced == old(spaced) && root == old(root) && mem == old(mem)
    {
      r := TableFrame();
      if !r.Ok? {
        return;
      }
      spaced, root := true, r.value;
      tree := map[root := Place(0, 0)];
      assert root in p2m[top..end] by { assert p2m[top..end][0] == root; }
    }

    /** A table for page v below table f: the one its entry names, or a new empty one. */
    method Descend(f: nat, level: nat, v: nat, ghost path: seq<nat>) returns (r: Result<nat>, ghost down: seq<nat>)
      requires Valid() && spaced && v < PAGES && level < 3
      requires Reach(mem, root, v, level) == At(f, path)
      modifies this
      ensures Valid() && spaced && root == old(root) && SameMeaning(old(mem), mem, root)
      ensures r.Ok? ==> Reach(mem, root, v, level + 1) == At(r.value, down)
      ensures r.Failed? ==> mem == old(mem) && Meaning(mem, root, v).Leaf? && Meaning(mem, root, v).level == level
      ensures r.OutOfMemory? ==> top == start && !UnderLarge(mem, root, v)
      ensures !r.Invalid?
    {
      ReachPlace(mem, tree, root, v, level);
      assert TableOk(mem, tree, f);
      var e := mem[f][Index(v, level)];
      down := path + [Flags(e)];
      if Present(e) {
        if Large(e) {
          WalkFromReach(mem, root, v, level);
          return Failed, down;
        }
        return Ok(Frame(e)), down;
      }
      r := TableFrame();
      if !r.Ok? {
        NotUnderLarge(mem, root, v, level, f);
        return OutOfMemory, down;
      }
      assert mem[f] == old(mem)[f];
      assert p2m[top..end][0] == r.value;
      LocalMeaning(old(mem), mem, tree, root);
      ReachAbove(old(mem), mem, tree, root, v, level);
      Link(f, level, v, r.value, path);
      down := path + [KERNPG];
    }

    method Link(f: nat, level: nat, v: nat, n: nat, ghost path: seq<nat>)
      requires Valid() && spaced && v < PAGES && level < 3 && Reach(mem, root, v, level) == At(f, path)
      requires f in mem && !Present(mem[f][Index(v, level)])
      requires n in mem && Empty(mem[n]) && n !in tree && n in p2m[top..end]
      modifies `mem, `tree
      ensures Valid() && SameMeaning(old(mem), mem, root)
      ensures Reach(mem, root, v, level + 1) == At(n, path + [KERNPG])
    {
      var mem' := Put(mem, f, Index(v, level), Entry(n, KERNPG));
      ReachPlace(mem, tree, root, v, level);
      ghost var tree' := tree[n := Place(tree[f].level + 1, tree[f].prefix * ENTRIES + Index(v, level))];
      LinkAll(mem, mem', tree, tree', root, v, level, f, n, path);
      PutOk(mem, p2m, backed, f, Index(v, level), Entry(n, KERNPG));
      mem, tree := mem', tree';
    }

    /** A 4 KB mapping: its page comes to mean that frame with those flags, no other page's
        meaning changes, and a call that fails changes no meaning at all. */
    method Map(va: nat, pa: nat, flags: nat) returns (r: Result<nat>)
      requires Valid() && spaced && va < 0x1_0000_0000_0000_0000 && pa / 4096 < FRAMES && Frame(flags) == 0
      modifies this
      ensures Valid() && spaced && root == old(root)
      ensures r.Ok? ==> OnlyChanges(old(mem), mem, root, va / 4096 % 0x10_0000_0000)
      ensures r.Ok? && Present(flags) ==>
                var m := Meaning(mem, root, va / 4096 % 0x10_0000_0000);
                m.Leaf? && m.level == 3 && m.frame == pa / 4096 && |m.path| > 0 && m.path[|m.path| - 1] == flags
      ensures r.Ok? && !Present(flags) ==> Meaning(mem, root, va / 4096 % 0x10_0000_0000) == Missing(0)
      ensures !r.Ok? ==> SameMeaning(old(mem), mem, root)
      ensures r.Invalid? <==> 0x8000_0000_0000 <= va < 0xffff_8000_0000_0000
      ensures r.Failed? <==> Canonical(va) && UnderLarge(old(mem), root, va / 4096 % 0x10_0000_0000)
      ensures r.OutOfMemory? ==> top == start
    {
      if !Canonical(va) {
        return Invalid;
      }
      var v := va / 4096 % 0x10_0000_0000;
      var level, f := 0, root;
      ghost var path := [];
      while level < 3
        invariant level <= 3 && Valid() && spaced && root == old(root)
        invariant Reach(mem, root, v, level) == At(f, path) && SameMeaning(old(mem), mem, root)
      {
        var next, down := Descend(f, level, v, path);
        if !next.Ok? {
          return if next.Failed? then Failed else OutOfMemory;
        }
        level, f, path := level + 1, next.value, down;
      }
      NotUnderLarge(mem, root, v, 3, f);
      WriteLeaf(f, v, Entry(pa / 4096, flags), path);
      EntryParts(pa / 4096, flags);
      r := Ok(f);
    }

    method WriteLeaf(f: nat, v: nat, e: nat, ghost path: seq<nat>)
      requires Valid() && spaced && v < PAGES && Reach(mem, root, v, 3) == At(f, path)
      modifies `mem
      ensures Valid() && OnlyChanges(old(mem), mem, root, v)
      ensures Present(e) ==> Meaning(mem, root, v) == Leaf(3, Frame(e), path + [Flags(e)])
      ensures !Present(e) ==> Meaning(mem, root, v) == Missing(0)
    {
      ReachPlace(mem, tree, root, v, 3);
      assert TableOk(mem, tree, f);
      LeafMeaning(mem, tree, root, v, f, e, path);
      LeafTree(mem, tree, root, f, Index(v, 3), e);
      PutOk(mem, p2m, backed, f, Index(v, 3), e);
      mem := Put(mem, f, Index(v, 3), e);
    }

    /** Rewrites a page's entries from pseudo to machine frames, in place; fails at the first
        entry that cannot be, leaving those before it rewritten. */
    method Machineize(page: nat) returns (ok: bool)
      requires Valid() && !(start <= page < end)
      modifies `mem
      ensures Valid() && Agree(old(mem), mem, tree)
      ensures ok <==> page < backed && AllGood(p2m, old(mem)[p2m[page]])
      ensures ok <==>
              && page < backed
              && var t := old(mem)[p2m[page]];
                 forall i :: 0 <= i < |t| && Present(t[i]) ==>
                   !Large(t[i]) && (Frame(t[i]) == 0 || (Frame(t[i]) < |p2m| && p2m[Frame(t[i])] != 0))
      ensures ok ==> mem.Keys == old(mem).Keys && Machined(p2m, old(mem)[p2m[page]], mem[p2m[page]])
      ensures forall f :: f in old(mem) && (page >= backed || f != p2m[page]) ==> f in mem && mem[f] == old(mem)[f]
    {
      if page >= backed {
        return false;
      }
      var f := p2m[page];
      NotReserved(p2m, backed, top, end, page);
      GoodIs(p2m, mem[f]);
      ok, mem := MachineTable(p2m, mem, f);
      if spaced {
        TreeLocal(old(mem), mem, tree, root);
      }
    }

    /** The kernel's own copy of the loader's upper table for the kernel slot, with the fixmap
        in its last entry, and the kernel's root over it. */
    method GraftTables(page: nat, fixPage: nat, pud: nat)
      requires Valid() && spaced && page < backed && !(start <= page < end) && fixPage < backed && fixPage != page
      requires !(start <= fixPage < end) && pud in p2m[top..end] && pud !in tree && pud in mem
      requires root in mem && Present(mem[root][SLOT]) && Frame(mem[root][SLOT]) in tree
               && Frame(mem[root][SLOT]) in mem
      modifies `mem
      ensures Valid() && Agree(old(mem), mem, tree)
      ensures Grafted(old(mem), mem, root, p2m[page], pud, p2m[fixPage])
      ensures mem.Keys == old(mem).Keys && forall f :: f in mem && f != pud && f != p2m[page] ==> mem[f] == old(mem)[f]
    {
      var ours, kernel := mem[root], p2m[page];
      NotReserved(p2m, backed, top, end, page);
      var upper: Table := mem[Frame(ours[SLOT])];
      upper := upper[SLOT := Entry(p2m[fixPage], KERNPG)];
      var t := MergeRoot(ours, mem[kernel]);
      t := t[SLOT := Entry(pud, Flags(ours[SLOT]))];
      mem := mem[pud := upper][kernel := t];
      TreeLocal(old(mem), mem, tree, root);
    }

    /** A table frame apart from two pages of the image. */
    method UpperFrame(page: nat, fixPage: nat) returns (r: Result<nat>)
      requires Valid() && spaced && page < backed && fixPage < backed
      requires !(start <= page < end) && !(start <= fixPage < end)
      modifies this
      ensures Valid() && spaced && root == old(root) && tree == old(tree) && SameWalks(old(mem), mem, root)
      ensures r.Ok? <==> old(top) > start
      ensures Agree(old(mem), mem, tree)
      ensures forall p :: p == page || p == fixPage ==>
                p2m[p] in mem && p2m[p] in old(mem) && mem[p2m[p]] == old(mem)[p2m[p]]
      ensures r.Ok? ==> r.value in p2m[top..end] && r.value !in tree && r.value in mem
      ensures r.Ok? ==> r.value != p2m[page] && r.value != p2m[fixPage]
    {
      r := TableFrame();
      LocalWalks(old(mem), mem, tree, root);
      if r.Ok? {
        assert p2m[top..end][0] == r.value;
        NotReserved(p2m, backed, top, end, page);
        NotReserved(p2m, backed, top, end, fixPage);
      }
    }

    /** The graft proper: refused only for want of a table frame, and then nothing changes. */
    method GraftRoot(page: nat, fixPage: nat) returns (ok: bool)
      requires Valid() && spaced && page < backed && fixPage < backed && fixPage != page
      requires !(start <= page < end) && !(start <= fixPage < end)
      requires root in mem && Present(mem[root][SLOT])
      modifies this
      ensures Valid() && spaced && root == old(root) && tree == old(tree) && Agree(old(mem), mem, tree)
      ensures ok <==> old(top) > start
      ensures ok ==> Adopted(old(mem), mem, root, p2m[page], p2m[fixPage])
      ensures p2m[fixPage] in mem && mem[p2m[fixPage]] == old(mem)[p2m[fixPage]]
    {
      assert TableOk(mem, tree, root);
      assert LinkOk(tree, tree[root], SLOT, mem[root][SLOT]);
      var pud := UpperFrame(page, fixPage);
      if !pud.Ok? {
        return false;
      }
      ghost var mem1 := mem;
      Apart(p2m, backed, page, fixPage);
      GraftTables(page, fixPage, pud.value);
      GraftKeeps(mem1, mem, tree, root, p2m[page], pud.value, p2m[fixPage]);
      AdoptedSince(old(mem), mem1, mem, root, p2m[page], p2m[fixPage]);
      ok := true;
    }

    /** Adopting the kernel's root. The loader's own space walks as before whatever happens.
        On success the kernel's root means, at every address whose top-level entry the loader
        had, what the loader's root meant, the fixmap excepted; and the fixmap's table now
        holds machine frames. */
    method Adopt(tables: seq<nat>) returns (r: Result<nat>)
      requires Valid() && (|tables| >= 5 ==> InImage(tables[0], start, end) && InImage(tables[3], start, end))
      requires |tables| >= 5 ==> KernelPage(tables[0]) != KernelPage(tables[3])
      modifies this
      ensures Valid() && spaced == old(spaced) && root == old(root) && tree == old(tree)
      ensures spaced ==> SameWalks(old(mem), mem, root)
      ensures r.Ok? <==>
              && spaced && |tables| >= 5 && KernelPage(tables[0]) < backed && KernelPage(tables[3]) < backed
              && root in old(mem) && Present(old(mem)[root][SLOT]) && old(top) > start
              && AllGood(p2m, old(mem)[p2m[KernelPage(tables[3])]])
      ensures r.Ok? ==> r.value / 4096 == p2m[KernelPage(tables[0])]
      ensures r.Ok? ==> Adopted(old(mem), mem, root, r.value / 4096, p2m[KernelPage(tables[3])])
      ensures r.Ok? ==> FixmapOk(p2m, old(mem), mem, p2m[KernelPage(tables[3])])
      ensures r.Ok? ==> FixmapLeads(p2m, old(mem), mem, root, r.value / 4096, p2m[KernelPage(tables[3])])
    {
      if !spaced || backed == 0 || |tables| < 5 {
        return Failed;
      }
      var page, fixPage := KernelPage(tables[0]), KernelPage(tables[3]);
      var ok := Machineize(fixPage);
      LocalWalks(old(mem), mem, tree, root);
      if !ok || page >= backed {
        return Failed;
      }
      Apart(p2m, backed, page, fixPage);
      assert TableOk(old(mem), tree, root);
      if !Present(mem[root][SLOT]) {
        return Failed;
      }
      ghost var mem1 := mem;
      ok := GraftRoot(page, fixPage);
      LocalWalks(old(mem), mem, tree, root);
      if !ok {
        return OutOfMemory;
      }
      assert mem1[p2m[page]] == old(mem)[p2m[page]];
      AdoptedSince(old(mem), mem1, mem, root, p2m[page], p2m[fixPage]);
      FixmapWalks(p2m, old(mem), mem, root, p2m[page], p2m[fixPage]);
      r := Ok(p2m[page] * 4096 + KernelAddress(tables[0]) % 4096);
    }
  }

  function Translate(p2m: seq<nat>, page: nat): (frame: nat) {
    if page < |p2m| then p2m[page] else 0
  }

  /** Absent, or a small entry for a page that translates, or for page zero. */
  predicate Good(p2m: seq<nat>, e: nat) {
    Present(e) ==> !Large(e) && (Translate(p2m, Frame(e)) != 0 || Frame(e) == 0)
  }

  lemma GoodIs(p2m: seq<nat>, t: Table)
    ensures AllGood(p2m, t) <==>
            forall i :: 0 <= i < |t| && Present(t[i]) ==>
              !Large(t[i]) && (Frame(t[i]) == 0 || (Frame(t[i]) < |p2m| && p2m[Frame(t[i])] != 0))
  {
    assert forall i :: 0 <= i < |t| ==> (Good(p2m, t[i]) <==> (Present(t[i]) ==>
      !Large(t[i]) && (Frame(t[i]) == 0 || (Frame(t[i]) < |p2m| && p2m[Frame(t[i])] != 0))));
  }

  predicate AllGood(p2m: seq<nat>, t: Table) {
    forall i :: 0 <= i < |t| ==> Good(p2m, t[i])
  }

  /** A present entry names the machine frame of the page it named, under its own flags; an
      absent one stays. */
  ghost predicate EntryMachined(p2m: seq<nat>, e: nat, e': nat) {
    if Present(e) then Frame(e) < |p2m| && Frame(e') == p2m[Frame(e)] && Flags(e') == Flags(e) else e' == e
  }

  ghost predicate Machined(p2m: seq<nat>, t: Table, t': Table) {
    |t'| == |t| && forall i :: 0 <= i < |t| ==> EntryMachined(p2m, t[i], t'[i])
  }

  ghost predicate Fitting(p2m: seq<nat>) {
    p2m != [] && forall i :: 0 <= i < |p2m| ==> p2m[i] < FRAMES
  }

  method MachineOne(p2m: seq<nat>, e: nat) returns (ok: bool, e': nat)
    requires Fitting(p2m)
    ensures ok <==> Good(p2m, e)
    ensures ok ==> EntryMachined(p2m, e, e')
  {
    if !Present(e) {
      return true, e;
    }
    if Large(e) {
      return false, e;
    }
    var frame := Translate(p2m, Frame(e));
    if frame == 0 && Frame(e) != 0 {
      return false, e;
    }
    EntryParts(frame, e);
    return true, Entry(frame, Flags(e));
  }

  method MachineTable(p2m: seq<nat>, mem: Memory, f: nat) returns (ok: bool, mem': Memory)
    requires f in mem && Fitting(p2m)
    ensures ok <==> AllGood(p2m, mem[f])
    ensures mem'.Keys == mem.Keys && |mem'[f]| == |mem[f]|
    ensures ok ==> Machined(p2m, mem[f], mem'[f])
    ensures forall g :: g in mem && g != f ==> mem'[g] == mem[g]
  {
    var t: Table := mem[f];
    var i := 0;
    while i < |t|
      invariant i <= |t| == |mem[f]|
      invariant forall j :: 0 <= j < i ==> Good(p2m, mem[f][j]) && EntryMachined(p2m, mem[f][j], t[j])
      invariant forall j :: i <= j < |t| ==> t[j] == mem[f][j]
    {
      var good, e := MachineOne(p2m, t[i]);
      if !good {
        return false, mem[f := t];
      }
      t := t[i := e];
      i := i + 1;
    }
    return true, mem[f := t];
  }

  function KernelAddress(kva: nat): nat {
    (kva + 0x1_0000_0000_0000_0000 - KERNEL_MAP) % 0x1_0000_0000_0000_0000
  }

  /** The pseudo page of a linked kernel address. */
  function KernelPage(kva: nat): nat {
    KernelAddress(kva) / 4096
  }

  /** Linked symbols lie outside the reserved table range. */
  predicate InImage(kva: nat, start: nat, end: nat) {
    !(start <= KernelPage(kva) < end)
  }

  /** A linked symbol lies at its offset from the map's base, which is where the image is loaded; an
      address below the base is taken round the end of the address space. */
  lemma KernelOffset(kva: nat)
    requires kva < 0x1_0000_0000_0000_0000
    ensures KernelAddress(kva)
            == if kva >= 0xffff_ffff_8000_0000 then kva - 0xffff_ffff_8000_0000 else kva + 0x8000_0000
    ensures KernelPage(kva) == KernelAddress(kva) / 4096
  {
  }

  method MergeRoot(ours: Table, kernel: Table) returns (t: Table)
    requires |ours| == ENTRIES && |kernel| == ENTRIES
    ensures |t| == ENTRIES
    ensures forall i :: 0 <= i < ENTRIES ==> t[i] == if Present(ours[i]) then ours[i] else kernel[i]
  {
    t := kernel;
    var i := 0;
    while i < ENTRIES
      invariant i <= ENTRIES == |t|
      invariant forall j :: 0 <= j < i ==> t[j] == if Present(ours[j]) then ours[j] else kernel[j]
      invariant forall j :: i <= j < ENTRIES ==> t[j] == kernel[j]
    {
      if Present(ours[i]) {
        t := t[i := ours[i]];
      }
      i := i + 1;
    }
  }

  ghost predicate Grafted(mem: Memory, mem': Memory, root: nat, kernel: nat, pud: nat, fix: nat)
    requires root in mem && |mem[root]| == ENTRIES && Frame(mem[root][SLOT]) in mem && kernel in mem
  {
    var ours := mem[root];
    && kernel in mem' && pud in mem' && |mem'[kernel]| == ENTRIES && |mem[kernel]| == ENTRIES
    && mem'[kernel][SLOT] == Entry(pud, Flags(ours[SLOT]))
    && (forall i :: 0 <= i < SLOT ==> mem'[kernel][i] == if Present(ours[i]) then ours[i] else mem[kernel][i])
    && |mem[Frame(ours[SLOT])]| == ENTRIES
    && mem'[pud] == mem[Frame(ours[SLOT])][SLOT := Entry(fix, KERNPG)]
  }

  predicate InFixmap(v: nat) {
    Index(v, 0) == SLOT && Index(v, 1) == SLOT
  }

  /** The fixmap is the last gigabyte of addresses, and the image's slot is the last of the root. */
  lemma FixmapIs(v: nat)
    requires v < 0x10_0000_0000
    ensures InFixmap(v) <==> 0xF_FFFC_0000 <= v
    ensures 0xF_FFF8_0000 <= v ==> Index(v, 0) == SLOT
  {
    IndexDigits(v / 0x800_0000, v / 0x4_0000 % 512, v / 512 % 512, v % 512);
  }

  /** What adopting promises of one address. */
  ghost predicate AdoptedAt(mem: Memory, mem': Memory, root: nat, cr3: nat, fix: nat, v: nat)
    requires root in mem && |mem[root]| == ENTRIES && cr3 in mem && |mem[cr3]| == ENTRIES
  {
    var e := mem[root][Index(v, 0)];
    if InFixmap(v) then Walk(mem', cr3, 0, v, []) == Walk(mem', fix, 2, v, [Flags(e), KERNPG])
    else if Present(e) then Walk(mem', cr3, 0, v, []) == Walk(mem, root, 0, v, [])
    else cr3 in mem' && |mem'[cr3]| == ENTRIES && mem'[cr3][Index(v, 0)] == mem[cr3][Index(v, 0)]
  }

  ghost predicate Adopted(mem: Memory, mem': Memory, root: nat, cr3: nat, fix: nat)
    requires root in mem && |mem[root]| == ENTRIES && cr3 in mem && |mem[cr3]| == ENTRIES
  {
    forall v: nat :: AdoptedAt(mem, mem', root, cr3, fix, v)
  }

  ghost predicate FixmapOk(p2m: seq<nat>, mem: Memory, mem': Memory, fix: nat)
    requires fix in mem
  {
    fix in mem' && Machined(p2m, mem[fix], mem'[fix])
  }

  /** An address under the fixmap goes on, from the adopted root, into the machine frame of the
      page that the fixmap's own entry named, or is missing if that was absent. */
  ghost predicate FixmapLeads(p2m: seq<nat>, mem: Memory, mem': Memory, root: nat, cr3: nat, fix: nat)
    requires root in mem && |mem[root]| == ENTRIES && fix in mem && |mem[fix]| == ENTRIES
  {
    forall v: nat :: InFixmap(v) ==>
      var (top, e) := (mem[root][Index(v, 0)], mem[fix][Index(v, 2)]);
      if Present(e) then
        && Frame(e) < |p2m|
        && Walk(mem', cr3, 0, v, []) == Walk(mem', p2m[Frame(e)], 3, v, [Flags(top), KERNPG, Flags(e)])
      else
        Walk(mem', cr3, 0, v, []) == Missing(2)
  }

  lemma FlagsTell(e: nat, e': nat)
    requires Flags(e') == Flags(e) && Frame(e') < FRAMES
    ensures Present(e') == Present(e) && Large(e') == Large(e)
  {
    Whole(e');
    EntryParts(Frame(e'), e);
  }

  lemma FixmapWalks(p2m: seq<nat>, mem: Memory, mem': Memory, root: nat, cr3: nat, fix: nat)
    requires root in mem && |mem[root]| == ENTRIES && cr3 in mem && |mem[cr3]| == ENTRIES
    requires fix in mem && |mem[fix]| == ENTRIES && AllGood(p2m, mem[fix]) && Fitting(p2m)
    requires Adopted(mem, mem', root, cr3, fix) && FixmapOk(p2m, mem, mem', fix)
    ensures FixmapLeads(p2m, mem, mem', root, cr3, fix)
  {
    forall v: nat | InFixmap(v)
      ensures var (top, e) := (mem[root][Index(v, 0)], mem[fix][Index(v, 2)]);
              if Present(e) then
                && Frame(e) < |p2m|
                && Walk(mem', cr3, 0, v, []) == Walk(mem', p2m[Frame(e)], 3, v, [Flags(top), KERNPG, Flags(e)])
              else
                Walk(mem', cr3, 0, v, []) == Missing(2)
    {
      assert AdoptedAt(mem, mem', root, cr3, fix, v);
      var (top, e, e') := (mem[root][Index(v, 0)], mem[fix][Index(v, 2)], mem'[fix][Index(v, 2)]);
      assert Good(p2m, e) && EntryMachined(p2m, e, e');
      if Present(e) {
        FlagsTell(e, e');
        WalkStep(mem', fix, 2, v, [Flags(top), KERNPG], e');
        assert [Flags(top), KERNPG] + [Flags(e)] == [Flags(top), KERNPG, Flags(e)];
      }
    }
  }

  /** Everything the graft of one tree relies on. */
  ghost predicate Grafting(mem: Memory, mem': Memory, tree: Tree, root: nat, kernel: nat, pud: nat, fix: nat) {
    && TreeOk(mem, tree, root) && Agree(mem, mem', tree) && root in mem && |mem[root]| == ENTRIES
    && Present(mem[root][SLOT]) && Frame(mem[root][SLOT]) in mem && kernel in mem && pud < FRAMES && fix < FRAMES
    && Grafted(mem, mem', root, kernel, pud, fix)
  }

  /** Outside the kernel slot the adopted root has the loader's entries. */
  lemma GraftElsewhere(mem: Memory, mem': Memory, tree: Tree, root: nat, kernel: nat, pud: nat, fix: nat, v: nat)
    requires Grafting(mem, mem', tree, root, kernel, pud, fix) && Index(v, 0) != SLOT && Present(mem[root][Index(v, 0)])
    ensures Walk(mem', kernel, 0, v, []) == Walk(mem, root, 0, v, [])
  {
    var e := mem[root][Index(v, 0)];
    assert TableOk(mem, tree, root);
    assert LinkOk(tree, tree[root], Index(v, 0), e);
    WalkStep(mem, root, 0, v, [], e);
    WalkStep(mem', kernel, 0, v, [], e);
    WalkLocal(mem, mem', tree, root, Frame(e), v, [] + [Flags(e)]);
  }

  /** The kernel slot leads to the copy, under the loader's flags. */
  lemma GraftSlot(mem: Memory, mem': Memory, tree: Tree, root: nat, kernel: nat, pud: nat, fix: nat, v: nat)
    requires Grafting(mem, mem', tree, root, kernel, pud, fix) && Index(v, 0) == SLOT
    ensures var e := mem[root][SLOT];
            && Walk(mem', kernel, 0, v, []) == Walk(mem', pud, 1, v, [Flags(e)])
            && Walk(mem, root, 0, v, []) == Walk(mem, Frame(e), 1, v, [Flags(e)])
            && Frame(e) in tree && tree[Frame(e)].level == 1
  {
    var e := mem[root][SLOT];
    assert TableOk(mem, tree, root);
    assert LinkOk(tree, tree[root], SLOT, e);
    EntryParts(pud, e);
    WalkStep(mem, root, 0, v, [], e);
    WalkStep(mem', kernel, 0, v, [], Entry(pud, Flags(e)));
  }

  lemma GraftUpper(mem: Memory, mem': Memory, tree: Tree, root: nat, kernel: nat, pud: nat, fix: nat, v: nat)
    requires Grafting(mem, mem', tree, root, kernel, pud, fix) && Index(v, 0) == SLOT && Index(v, 1) != SLOT
    ensures Walk(mem', kernel, 0, v, []) == Walk(mem, root, 0, v, [])
  {
    var path := [Flags(mem[root][SLOT])];
    GraftSlot(mem, mem', tree, root, kernel, pud, fix, v);
    var upper := Frame(mem[root][SLOT]);
    assert TableOk(mem, tree, upper);
    var x := mem[upper][Index(v, 1)];
    assert LinkOk(tree, tree[upper], Index(v, 1), x);
    if Present(x) && !Large(x) {
      WalkStep(mem, upper, 1, v, path, x);
      WalkStep(mem', pud, 1, v, path, x);
      WalkLocal(mem, mem', tree, root, Frame(x), v, path + [Flags(x)]);
    } else {
      WalkStop(mem, upper, mem', pud, 1, v, path);
    }
  }

  lemma GraftFixmap(mem: Memory, mem': Memory, tree: Tree, root: nat, kernel: nat, pud: nat, fix: nat, v: nat)
    requires Grafting(mem, mem', tree, root, kernel, pud, fix) && InFixmap(v)
    ensures Walk(mem', kernel, 0, v, []) == Walk(mem', fix, 2, v, [Flags(mem[root][SLOT]), KERNPG])
  {
    GraftSlot(mem, mem', tree, root, kernel, pud, fix, v);
    KernpgEntry(fix);
    var path := [Flags(mem[root][SLOT])];
    WalkStep(mem', pud, 1, v, path, Entry(fix, KERNPG));
    assert path + [KERNPG] == [Flags(mem[root][SLOT]), KERNPG];
  }

  /** The graft keeps the meaning of what the loader mapped. */
  lemma GraftKeeps(mem: Memory, mem': Memory, tree: Tree, root: nat, kernel: nat, pud: nat, fix: nat)
    requires Grafting(mem, mem', tree, root, kernel, pud, fix)
    ensures Adopted(mem, mem', root, kernel, fix)
  {
    forall v: nat ensures AdoptedAt(mem, mem', root, kernel, fix, v) {
      if InFixmap(v) {
        GraftFixmap(mem, mem', tree, root, kernel, pud, fix, v);
      } else if Index(v, 0) == SLOT {
        GraftUpper(mem, mem', tree, root, kernel, pud, fix, v);
      } else if Present(mem[root][Index(v, 0)]) {
        GraftElsewhere(mem, mem', tree, root, kernel, pud, fix, v);
      }
    }
  }

  /** What was written before the graft touched neither root. */
  lemma AdoptedSince(mem: Memory, mem1: Memory, mem': Memory, root: nat, cr3: nat, fix: nat)
    requires root in mem && |mem[root]| == ENTRIES && cr3 in mem && |mem[cr3]| == ENTRIES
    requires root in mem1 && mem1[root] == mem[root] && cr3 in mem1 && mem1[cr3] == mem[cr3]
    requires SameWalks(mem, mem1, root) && Adopted(mem1, mem', root, cr3, fix)
    ensures Adopted(mem, mem', root, cr3, fix)
  {
    forall v: nat ensures AdoptedAt(mem, mem', root, cr3, fix, v) {
      assert AdoptedAt(mem1, mem', root, cr3, fix, v);
    }
  }
}
