/** The pseudo-physical layout fixed when a run begins: image, reserved table range,
    RAM ceiling and window arena; and whether the reserve can hold the tables. */
module Layout {
  import opened Counting
  import opened Sizes
  import opened Translation

  const PMD: nat := 0x20_0000
  const MIN_TABLES: nat := 0x40_0000
  const ARENA: nat := 0x1_0000_0000
  const MAX_RAM: nat := 128 * GIB
  const MAX_IMAGE: nat := 2 * GIB   // the kernel's half of the last top-level entry
  const WINDOW: nat := GIB          // each translation table has its own gigabyte of addresses

  /** One table page maps 2 MB; two more megabytes for the other levels and mappings. */
  function TableBytes(image: nat, ram: nat): nat {
    Max(MIN_TABLES, CeilDiv(2 * MIB + CeilDiv(Max(ram, image), 512), PMD) * PMD)
  }

  /** The reserve in units of 2 MB, each 512 tables: one for each gigabyte and one more. */
  function Units(image: nat, ram: nat): nat {
    Max(2, 1 + CeilDiv(Max(ram, image), GIB))
  }

  lemma UnitBytes(image: nat, ram: nat)
    ensures TableBytes(image, ram) == Units(image, ram) * PMD == 512 * Units(image, ram) * PAGE
  {
  }

  function TableEnd(image: nat, ram: nat): nat {
    image + TableBytes(image, ram)
  }

  /** The first page above the RAM ceiling; the arena follows. */
  function WindowBase(image: nat, ram: nat): nat {
    var end := if ram + TableBytes(image, ram) < TableEnd(image, ram) then TableEnd(image, ram)
               else ram + TableBytes(image, ram);
    CeilPages(end)
  }

  function Capacity(image: nat, ram: nat): nat {
    WindowBase(image, ram) + ARENA / PAGE
  }

  /** How far RAM is grown: the table hole does not count against the RAM asked for. */
  function DesiredEnd(image: nat, tableEnd: nat, ram: nat): nat {
    tableEnd + if ram > image then ram - image else 0
  }

  /** Growing to the size the run began with never reaches the window arena. */
  lemma RamBelowWindows(image: nat, ram: nat)
    ensures CeilPages(TableEnd(image, ram)) <= CeilPages(DesiredEnd(image, TableEnd(image, ram), ram))
    ensures CeilPages(DesiredEnd(image, TableEnd(image, ram), ram)) == WindowBase(image, ram)
  {
  }

  lemma WholeTables(image: nat, ram: nat)
    ensures TableBytes(image, ram) % PAGE == 0
  {
    UnitBytes(image, ram);
  }

  /** Adding whole pages keeps the order of ends, in pages. */
  lemma SameOrder(m: nat, n: nat, t: nat, end: nat, base: nat)
    requires t % PAGE == 0 && end == m + t && base == CeilPages(n + t)
    ensures CeilPages(end) <= base <==> CeilPages(m) <= CeilPages(n)
    ensures end / PAGE <= base + ARENA / PAGE <==> m / PAGE <= CeilPages(n) + ARENA / PAGE
  {
  }

  lemma Ends(image: nat, ram: nat, later: nat)
    ensures DesiredEnd(image, TableEnd(image, ram), later) == Max(later, image) + TableBytes(image, ram)
    ensures WindowBase(image, ram) == CeilPages(Max(ram, image) + TableBytes(image, ram))
  {
  }

  /** For another size the capacity test alone does not keep RAM out of the arena: RAM stays
      below it exactly when the later size, or the image if that is larger, takes no more pages
      than the size the run began with; and the test lets pass exactly the sizes that end
      inside the arena. */
  lemma OtherRamSize(image: nat, ram: nat, later: nat)
    ensures var end := DesiredEnd(image, TableEnd(image, ram), later);
            && (CeilPages(end) <= WindowBase(image, ram) <==>
                 CeilPages(Max(later, image)) <= CeilPages(Max(ram, image)))
            && (end / PAGE <= Capacity(image, ram) <==>
                Max(later, image) / PAGE <= CeilPages(Max(ram, image)) + ARENA / PAGE)
  {
    WholeTables(image, ram);
    Ends(image, ram, later);
    SameOrder(Max(later, image), Max(ram, image), TableBytes(image, ram),
              DesiredEnd(image, TableEnd(image, ram), later), WindowBase(image, ram));
  }

  // ----- The ranges reported to the guest -----

  datatype Range = Range(pa: nat, usable: nat, reserved: nat)

  function RangeCount(tableEnd: nat, backed: nat): nat {
    if backed == 0 then 0 else if backed * PAGE > tableEnd then 2 else 1
  }

  function RangeAt(i: nat, tableStart: nat, tableEnd: nat, backed: nat): Range
    requires tableStart <= tableEnd
  {
    if i >= RangeCount(tableEnd, backed) then Range(0, 0, 0)
    else if i == 0 then Range(0, tableStart, tableEnd - tableStart)
    else Range(tableEnd, backed * PAGE - tableEnd, 0)
  }

  predicate InUsable(r: Range, pa: nat) {
    r.pa <= pa < r.pa + r.usable
  }

  predicate InReserved(r: Range, pa: nat) {
    r.pa + r.usable <= pa < r.pa + r.usable + r.reserved
  }

  /** Every backed byte is in exactly one part of one range, reserved exactly in the table
      hole, and no other byte is in any. */
  lemma RangesPartition(tableStart: nat, tableEnd: nat, backed: nat, pa: nat)
    requires tableStart <= tableEnd <= backed * PAGE && backed > 0
    ensures var (a, b) := (RangeAt(0, tableStart, tableEnd, backed), RangeAt(1, tableStart, tableEnd, backed));
            && (pa < backed * PAGE <==> InUsable(a, pa) || InReserved(a, pa) || InUsable(b, pa) || InReserved(b, pa))
            && (InReserved(a, pa) <==> tableStart <= pa < tableEnd)
            && !(InUsable(a, pa) && (InUsable(b, pa) || InReserved(b, pa)))
            && !(InReserved(a, pa) && (InUsable(b, pa) || InReserved(b, pa)))
  {
  }

  /** A range is reported exactly when it is not empty: the first with any memory at all, the
      second only for memory above the tables. */
  lemma RangesReported(tableStart: nat, tableEnd: nat, backed: nat, i: nat)
    requires tableStart <= tableEnd && 0 < tableEnd
    ensures var r := RangeAt(i, tableStart, tableEnd, backed);
            && (i < RangeCount(tableEnd, backed) <==> r.usable + r.reserved > 0)
            && (i < RangeCount(tableEnd, backed) <==> backed > 0 && (i == 0 || (i == 1 && tableEnd < backed * 4096)))
            && (r.usable + r.reserved == 0 ==> r.pa == 0)
  {
  }

  // ----- Tables -----

  /** A run of virtual pages, numbered within the 48-bit address space. */
  datatype Region = Region(first: nat, pages: nat)

  const PT: nat := 512
  const PD: nat := 0x4_0000
  const PDPT: nat := 0x800_0000

  const DIRECT_MAP: nat := 0x8_8800_0000    // 0xffff888000000000
  const P2M_VA: nat := 0xE_99F8_0000        // 0xffffe99f80000000
  const M2P_VA: nat := 0xE_99FC_0000        // 0xffffe99fc0000000
  const KERNEL_MAP: nat := 0xF_FFF8_0000    // 0xffffffff80000000

  predicate Level(k: nat) {
    k == PT || k == PD || k == PDPT
  }

  /** The tables of one level that a run of pages needs: one for each distinct prefix. */
  ghost function Prefixes(r: Region, k: nat): set<nat>
    requires k > 0
  {
    set v | r.first <= v < r.first + r.pages :: v / k
  }

  function Span(r: Region, k: nat): nat
    requires k > 0
  {
    if r.pages == 0 then 0 else (r.first + r.pages - 1) / k - r.first / k + 1
  }

  lemma DivOrder(m: nat, n: nat, k: nat)
    requires Level(k) && m <= n
    ensures m / k <= n / k
  {
  }

  lemma Quotient(q: nat, v: nat, k: nat)
    requires Level(k) && q * k <= v < q * k + k
    ensures v / k == q
  {
  }

  lemma PrefixWitness(r: Region, k: nat, q: nat)
    requires Level(k) && r.pages > 0 && r.first / k <= q <= (r.first + r.pages - 1) / k
    ensures q in Prefixes(r, k)
  {
    var v := if q * k < r.first then r.first else q * k;
    assert r.first <= v < r.first + r.pages;
    Quotient(q, v, k);
  }

  /** The prefixes of a run are consecutive: the first page's, up to the last page's. */
  lemma PrefixesBetween(r: Region, k: nat)
    requires Level(k) && r.pages > 0
    ensures r.first / k <= (r.first + r.pages - 1) / k
    ensures Prefixes(r, k) == Between(r.first / k, (r.first + r.pages - 1) / k)
  {
    var lo, last := r.first / k, r.first + r.pages - 1;
    DivOrder(r.first, last, k);
    forall v | r.first <= v < r.first + r.pages ensures lo <= v / k <= last / k {
      DivOrder(r.first, v, k);
      DivOrder(v, last, k);
    }
    forall q | lo <= q <= last / k ensures q in Prefixes(r, k) {
      PrefixWitness(r, k, q);
    }
  }

  lemma SpanCounts(r: Region, k: nat)
    requires Level(k)
    ensures |Prefixes(r, k)| == Span(r, k)
  {
    if r.pages == 0 {
      assert Prefixes(r, k) == {};
    } else {
      PrefixesBetween(r, k);
      DivOrder(r.first, r.first + r.pages - 1, k);
    }
  }

  /** A run that starts a table of its own takes as many as hold its pages. */
  lemma SpanAligned(r: Region, k: nat)
    requires Level(k) && r.first % k == 0
    ensures Span(r, k) == CeilDiv(r.pages, k)
  {
  }

  /** The tables of one level that a set of mapped pages needs. */
  ghost function PrefixesOf(pages: set<nat>, k: nat): set<nat>
    requires k > 0
  {
    set v | v in pages :: v / k
  }

  /** All tables, the root included, that mapping these pages one by one takes. */
  ghost function TablesOf(pages: set<nat>): nat {
    1 + |PrefixesOf(pages, PT)| + |PrefixesOf(pages, PD)| + |PrefixesOf(pages, PDPT)|
  }

  predicate Holds(r: Region, v: nat) {
    r.first <= v < r.first + r.pages
  }

  ghost function PagesOf(r: Region): set<nat> {
    set v | r.first <= v < r.first + r.pages && Holds(r, v)
  }

  /** Fewer pages never take more tables. */
  lemma TablesMonotone(a: set<nat>, b: set<nat>)
    requires a <= b
    ensures TablesOf(a) <= TablesOf(b)
  {
    SubsetCount(PrefixesOf(a, PT), PrefixesOf(b, PT));
    SubsetCount(PrefixesOf(a, PD), PrefixesOf(b, PD));
    SubsetCount(PrefixesOf(a, PDPT), PrefixesOf(b, PDPT));
  }

  ghost function AllPages(a: Region, b: Region, c: Region, d: Region): set<nat> {
    PagesOf(a) + PagesOf(b) + PagesOf(c) + PagesOf(d)
  }

  ghost function Needed(a: Region, b: Region, c: Region, d: Region, k: nat): set<nat>
    requires k > 0
  {
    Prefixes(a, k) + Prefixes(b, k) + Prefixes(c, k) + Prefixes(d, k)
  }

  lemma RunPrefixes(r: Region, k: nat)
    requires k > 0
    ensures PrefixesOf(PagesOf(r), k) == Prefixes(r, k)
  {
    forall q | q in Prefixes(r, k) ensures q in PrefixesOf(PagesOf(r), k) {
      var v :| r.first <= v < r.first + r.pages && v / k == q;
      assert Holds(r, v) && v in PagesOf(r);
    }
  }

  lemma JoinPrefixes(x: set<nat>, y: set<nat>, k: nat)
    requires k > 0
    ensures PrefixesOf(x + y, k) == PrefixesOf(x, k) + PrefixesOf(y, k)
  {
  }

  lemma NeededOf(a: Region, b: Region, c: Region, d: Region, k: nat)
    requires k > 0
    ensures PrefixesOf(AllPages(a, b, c, d), k) == Needed(a, b, c, d, k)
  {
    RunPrefixes(a, k);
    RunPrefixes(b, k);
    RunPrefixes(c, k);
    RunPrefixes(d, k);
    JoinPrefixes(PagesOf(a), PagesOf(b), k);
    JoinPrefixes(PagesOf(a) + PagesOf(b), PagesOf(c), k);
    JoinPrefixes(PagesOf(a) + PagesOf(b) + PagesOf(c), PagesOf(d), k);
  }

  /** Two runs on either side of a table's first page. */
  lemma PrefixesApart(a: Region, b: Region, k: nat, e: nat)
    requires Level(k) && a.first + a.pages <= e <= b.first && e % k == 0
    ensures Prefixes(a, k) !! Prefixes(b, k)
  {
    forall v | a.first <= v < a.first + a.pages ensures v / k < e / k {
      assert v < e;
    }
    forall v | b.first <= v < b.first + b.pages ensures v / k >= e / k {
      DivOrder(e, v, k);
    }
  }

  lemma DisjointCount<T>(a: set<T>, b: set<T>, c: set<T>, d: set<T>)
    requires a !! b && a !! c && a !! d && b !! c && b !! d && c !! d
    ensures |a + b + c + d| == |a| + |b| + |c| + |d|
  {
    assert |a + b| == |a| + |b|;
    assert (a + b) !! c && |a + b + c| == |a + b| + |c|;
  }

  /** Regions that lie apart in this order (a, c, d, b), with a table's first page between each
      two, share none of that level. */
  lemma NeededApart(a: Region, b: Region, c: Region, d: Region, k: nat, e: nat)
    requires Level(k) && a.first % k == c.first % k == d.first % k == e % k == 0
    requires a.first + a.pages <= c.first && c.first + c.pages <= d.first && d.first + d.pages <= e <= b.first
    ensures |Needed(a, b, c, d, k)|
            == CeilDiv(a.pages, k) + Span(b, k) + CeilDiv(c.pages, k) + CeilDiv(d.pages, k)
  {
    PrefixesApart(a, b, k, e);
    PrefixesApart(a, c, k, c.first);
    PrefixesApart(a, d, k, d.first);
    PrefixesApart(c, b, k, e);
    PrefixesApart(d, b, k, e);
    PrefixesApart(c, d, k, d.first);
    DisjointCount(Prefixes(a, k), Prefixes(b, k), Prefixes(c, k), Prefixes(d, k));
    SpanCounts(b, k);
    forall r | r in {a, c, d} ensures |Prefixes(r, k)| == CeilDiv(r.pages, k) {
      SpanCounts(r, k);
      SpanAligned(r, k);
    }
  }

  /** A run inside one table's reach needs that table alone. */
  lemma OnePrefix(r: Region, k: nat, q: nat)
    requires Level(k) && q * k <= r.first && r.first + r.pages <= q * k + k
    ensures Prefixes(r, k) == if r.pages == 0 then {} else {q}
  {
    if r.pages > 0 {
      Quotient(q, r.first, k);
      Quotient(q, r.first + r.pages - 1, k);
      PrefixesBetween(r, k);
    }
  }

  /** At the top level below the root the two translation windows share a table. */
  lemma NeededTop(a: Region, b: Region, c: Region, d: Region)
    requires a.first == DIRECT_MAP && 0 < a.pages <= PDPT && c.first == P2M_VA && 0 < c.pages <= WINDOW / PAGE
    requires d.first == M2P_VA && d.pages <= WINDOW / PAGE
    requires KERNEL_MAP <= b.first && 0 < b.pages && b.first + b.pages <= KERNEL_MAP + MAX_IMAGE / PAGE
    ensures |Needed(a, b, c, d, PDPT)| == 3
  {
    var (x, y, z) := (DIRECT_MAP / PDPT, KERNEL_MAP / PDPT, P2M_VA / PDPT);
    OnePrefix(a, PDPT, x);
    OnePrefix(b, PDPT, y);
    OnePrefix(c, PDPT, z);
    OnePrefix(d, PDPT, z);
    assert Needed(a, b, c, d, PDPT) == {x, y, z};
  }

  // ----- The reserve -----

  function P2mPages(capacity: nat): nat {
    CeilPages(8 * capacity)
  }

  function M2pPages(slots: nat): nat {
    CeilPages(4 * slots)
  }

  /** Tables below the root for a whole number of pages of their own. */
  function OwnTables(pages: nat): nat {
    CeilDiv(pages, PT) + CeilDiv(pages, PD)
  }

  /** The pages of a direct map of w pages, pages l up to i of the image, and translation windows
      of p and m pages. */
  ghost function MappedPages(w: nat, l: nat, i: nat, p: nat, m: nat): set<nat>
    requires l <= i
  {
    AllPages(Region(DIRECT_MAP, w), Region(KERNEL_MAP + l, i - l), Region(P2M_VA, p), Region(M2P_VA, m))
  }

  /** Every page the loader can map; the image is loaded from `low` on. */
  ghost function LoaderPages(low: nat, image: nat, ram: nat, slots: nat): set<nat>
    requires low / PAGE <= image / PAGE
  {
    MappedPages(WindowBase(image, ram), low / PAGE, image / PAGE, P2mPages(Capacity(image, ram)), M2pPages(slots))
  }

  /** Tables of pages l up to i of the image, its upper one included. */
  function RunTables(l: nat, i: nat): nat
    requires l < i
  {
    DivOrder(l, i - 1, PT);
    DivOrder(l, i - 1, PD);
    ((i - 1) / PT - l / PT) + ((i - 1) / PD - l / PD) + 3
  }

  lemma KernelPrefix(l: nat, k: nat)
    requires k == PT || k == PD
    ensures (KERNEL_MAP + l) / k == KERNEL_MAP / k + l / k
  {
  }

  lemma ImageSpan(l: nat, i: nat, k: nat)
    requires l < i && (k == PT || k == PD)
    ensures Span(Region(KERNEL_MAP + l, i - l), k) == (i - 1) / k - l / k + 1
  {
    KernelPrefix(l, k);
    KernelPrefix(i - 1, k);
  }

  lemma TablesExact(w: nat, l: nat, i: nat, p: nat, m: nat)
    requires 0 < w <= PDPT && l < i <= MAX_IMAGE / PAGE && 0 < p <= WINDOW / PAGE && m <= WINDOW / PAGE
    ensures TablesOf(MappedPages(w, l, i, p, m)) == OwnTables(w) + RunTables(l, i) + OwnTables(p) + OwnTables(m) + 3
  {
    var (a, b, c, d) := (Region(DIRECT_MAP, w), Region(KERNEL_MAP + l, i - l), Region(P2M_VA, p), Region(M2P_VA, m));
    NeededOf(a, b, c, d, PT);
    NeededOf(a, b, c, d, PD);
    NeededOf(a, b, c, d, PDPT);
    NeededApart(a, b, c, d, PT, KERNEL_MAP);
    NeededApart(a, b, c, d, PD, KERNEL_MAP);
    NeededTop(a, b, c, d);
    ImageSpan(l, i, PT);
    ImageSpan(l, i, PD);
  }

  /** Last-level tables of the direct map: one for each 2 MB, the reserve's own included. */
  function DirectTables(image: nat, ram: nat): nat {
    CeilDiv(Max(ram, image), PMD) + Units(image, ram)
  }

  lemma UnitSizes(image: nat, ram: nat)
    ensures CeilDiv(WindowBase(image, ram), PT) == DirectTables(image, ram)
  {
    UnitBytes(image, ram);
  }

  lemma LevelSizes(image: nat, ram: nat)
    requires image <= MAX_IMAGE && ram <= MAX_RAM
    ensures var n := DirectTables(image, ram);
            && 0 < n <= 65794 && CeilDiv(WindowBase(image, ram), PD) == CeilDiv(n, PT)
            && P2mPages(Capacity(image, ram)) == n + 2048
            && CeilDiv(n + 2048, PT) == CeilDiv(n, PT) + 4 && CeilDiv(n + 2048, PD) == 1
  {
    UnitSizes(image, ram);
  }

  /** The tables needed, from the sizes alone. */
  function TableCount(low: nat, image: nat, ram: nat, slots: nat): nat
    requires low / PAGE < image / PAGE
  {
    var n := DirectTables(image, ram);
    n + 2 * CeilDiv(n, PT) + 8 + RunTables(low / PAGE, image / PAGE) + OwnTables(M2pPages(slots))
  }

  /** An image the loader accepts: whole pages of the last two gigabytes, at least one. */
  ghost predicate ImageOk(low: nat, image: nat) {
    low % PAGE == image % PAGE == 0 && low < image <= MAX_IMAGE
  }

  lemma ImagePages(low: nat, image: nat)
    requires ImageOk(low, image)
    ensures low / PAGE < image / PAGE <= MAX_IMAGE / PAGE
  {
  }

  /** The direct map and the forward array's window, by level. */
  lemma LevelTables(image: nat, ram: nat, w: nat, p: nat)
    requires image <= MAX_IMAGE && ram <= MAX_RAM && w == WindowBase(image, ram) && p == P2mPages(Capacity(image, ram))
    ensures 0 < w <= PDPT && 0 < p <= WINDOW / PAGE
    ensures OwnTables(w) + OwnTables(p) == DirectTables(image, ram) + 2 * CeilDiv(DirectTables(image, ram), PT) + 5
  {
    UnitSizes(image, ram);
    LevelSizes(image, ram);
  }

  lemma CountParts(image: nat, ram: nat, slots: nat, l: nat, i: nat, w: nat, p: nat, m: nat)
    requires image <= MAX_IMAGE && ram <= MAX_RAM && 4 * slots <= WINDOW && l < i <= MAX_IMAGE / PAGE
    requires w == WindowBase(image, ram) && p == P2mPages(Capacity(image, ram)) && m == M2pPages(slots)
    ensures TablesOf(MappedPages(w, l, i, p, m))
            == DirectTables(image, ram) + 2 * CeilDiv(DirectTables(image, ram), PT) + 8 + RunTables(l, i) + OwnTables(m)
  {
    LevelTables(image, ram, w, p);
    TablesExact(w, l, i, p, m);
  }

  lemma CountExact(low: nat, image: nat, ram: nat, slots: nat)
    requires ImageOk(low, image) && ram <= MAX_RAM && 4 * slots <= WINDOW
    ensures TablesOf(LoaderPages(low, image, ram, slots)) == TableCount(low, image, ram, slots)
  {
    ImagePages(low, image);
    CountParts(image, ram, slots, low / PAGE, image / PAGE, WindowBase(image, ram), P2mPages(Capacity(image, ram)),
               M2pPages(slots));
  }

  /** The count is exact once every page is mapped, for every RAM size and every image, wherever
      it begins, that the loader accepts; the reserve holds every table exactly when the count is
      no more than 512 for each of its units. */
  lemma ReserveExact(low: nat, image: nat, ram: nat, slots: nat)
    requires ImageOk(low, image) && ram <= MAX_RAM && 4 * slots <= WINDOW
    ensures TablesOf(LoaderPages(low, image, ram, slots)) == TableCount(low, image, ram, slots)
    ensures TablesOf(LoaderPages(low, image, ram, slots)) * PAGE <= TableBytes(image, ram) <==>
            TableCount(low, image, ram, slots) <= 512 * Units(image, ram)
  {
    CountExact(low, image, ram, slots);
    UnitBytes(image, ram);
  }

  lemma ModestHash(capacity: nat, slots: nat)
    requires HashSlots(capacity, slots) && capacity <= 0x2AA_0000
    ensures slots <= 0x400_0000 && OwnTables(M2pPages(slots)) <= 129
    ensures capacity >= 0x1D0_0000 ==> slots == 0x400_0000
  {
    SomePowers();
    PowerGap(slots, 0x400_0000);
    if slots < 0x400_0000 {
      PowerGap(slots, 0x200_0000);
    }
  }

  lemma ModestCapacity(image: nat, ram: nat)
    requires image <= 64 * MIB && ram <= MAX_RAM
    ensures Capacity(image, ram) <= 0x2AA_0000 && (ram >= 112 * GIB ==> Capacity(image, ram) >= 0x1D0_0000)
  {
  }

  lemma ModestImage(low: nat, image: nat)
    requires ImageOk(low, image) && image <= 64 * MIB
    ensures RunTables(low / PAGE, image / PAGE) <= 34
  {
  }

  /** m units of 2 MB within g gigabytes, the last of which is left by one unit past 112. */
  lemma RoomFor(m: nat, g: nat, a: nat, other: nat, spare: nat)
    requires m <= 512 * g && g <= 113 && a == Max(2, 1 + g) && other <= 163 && (g == 113 ==> m < 512 * g)
    requires spare == 0 || (spare == 128 && g <= 64)
    ensures m + a + 2 * CeilDiv(m + a, PT) + 8 + other + spare <= 512 * a
  {
  }

  lemma GigabyteUnits(n: nat)
    ensures CeilDiv(n, PMD) <= 512 * CeilDiv(n, GIB)
    ensures n <= 115710 * MIB ==> CeilDiv(n, GIB) <= 113 && (CeilDiv(n, GIB) == 113 ==> CeilDiv(n, PMD) < 512 * 113)
    ensures n <= 64 * GIB ==> CeilDiv(n, GIB) <= 64
  {
  }

  lemma DirectRoom(image: nat, ram: nat, other: nat, spare: nat)
    requires Max(ram, image) <= 115710 * MIB && other <= 163
    requires spare == 0 || (spare == 128 && Max(ram, image) <= 64 * GIB)
    ensures DirectTables(image, ram) + 2 * CeilDiv(DirectTables(image, ram), PT) + 8 + other + spare
            <= 512 * Units(image, ram)
  {
    var n := Max(ram, image);
    GigabyteUnits(n);
    RoomFor(CeilDiv(n, PMD), CeilDiv(n, GIB), Units(image, ram), other, spare);
  }

  lemma CountSuffices(low: nat, image: nat, ram: nat, slots: nat, spare: nat)
    requires ImageOk(low, image) && image <= 64 * MIB && ram <= 115710 * MIB
    requires HashSlots(Capacity(image, ram), slots) && (spare == 0 || (spare == 128 && ram <= 64 * GIB))
    ensures TableCount(low, image, ram, slots) + spare <= 512 * Units(image, ram)
  {
    ModestCapacity(image, ram);
    ModestHash(Capacity(image, ram), slots);
    ModestImage(low, image);
    DirectRoom(image, ram, RunTables(low / PAGE, image / PAGE) + OwnTables(M2pPages(slots)), spare);
  }

  /** With an image up to 64 MiB the reserve holds every 4 KB table of the direct map, the image
      and both translation windows, whichever of their pages are mapped: up to 64 GiB of RAM with
      128 tables to spare, and up to 115710 MiB at all. */
  lemma ReserveSuffices(low: nat, image: nat, ram: nat, slots: nat, pages: set<nat>)
    requires ImageOk(low, image) && image <= 64 * MIB && ram <= 115710 * MIB
    requires HashSlots(Capacity(image, ram), slots) && pages <= LoaderPages(low, image, ram, slots)
    ensures TablesOf(pages) * PAGE <= TableBytes(image, ram)
    ensures ram <= 64 * GIB ==> (TablesOf(pages) + 128) * PAGE <= TableBytes(image, ram)
  {
    TablesMonotone(pages, LoaderPages(low, image, ram, slots));
    ModestCapacity(image, ram);
    ModestHash(Capacity(image, ram), slots);
    ReserveExact(low, image, ram, slots);
    UnitBytes(image, ram);
    CountSuffices(low, image, ram, slots, 0);
    if ram <= 64 * GIB {
      CountSuffices(low, image, ram, slots, 128);
    }
  }

  lemma LimitImage(low: nat)
    requires ImageOk(low, 64 * MIB)
    ensures RunTables(low / PAGE, 64 * MIB / PAGE) == 34 - low / PMD
  {
  }

  /** Sizes at the limit; a full hash takes 129 tables. */
  lemma LimitSizes()
    ensures OwnTables(M2pPages(0x400_0000)) == 129
    ensures Units(64 * MIB, 115710 * MIB + 1) == 114 && DirectTables(64 * MIB, 115710 * MIB + 1) == 57970
    ensures Units(64 * MIB, 130980 * MIB) == 129 && DirectTables(64 * MIB, 130980 * MIB) == 65619
  {
  }

  /** That is the most for every image: a byte more is too much for one that ends at 64 MiB exactly
      when it begins in the first 2 MB, though not every larger size is too much. */
  lemma ReserveLimit(low: nat, ram: nat, slots: nat)
    requires ImageOk(low, 64 * MIB) && (ram == 115710 * MIB + 1 || ram == 130980 * MIB)
    requires HashSlots(Capacity(64 * MIB, ram), slots)
    ensures TablesOf(LoaderPages(low, 64 * MIB, ram, slots)) * PAGE > TableBytes(64 * MIB, ram) <==>
            ram == 115710 * MIB + 1 && low < PMD
  {
    ModestCapacity(64 * MIB, ram);
    ModestHash(Capacity(64 * MIB, ram), slots);
    ReserveExact(low, 64 * MIB, ram, slots);
    LimitImage(low);
    LimitSizes();
  }

  lemma RoomShort(g: nat, a: nat, other: nat)
    requires 125 <= g && a == 1 + g && other >= 129
    ensures 512 * g + a + 2 * CeilDiv(512 * g + a, PT) + 8 + other > 512 * a
  {
  }

  /** From 125 GiB on a whole number of gigabytes is too much whatever the image, the 128 that
      the loader accepts included. */
  lemma ReserveShort(low: nat, image: nat, g: nat, slots: nat)
    requires ImageOk(low, image) && image <= 64 * MIB && 125 <= g <= 128
    requires HashSlots(Capacity(image, g * GIB), slots)
    ensures TablesOf(LoaderPages(low, image, g * GIB, slots)) * PAGE > TableBytes(image, g * GIB)
  {
    var ram := g * GIB;
    ModestCapacity(image, ram);
    ModestHash(Capacity(image, ram), slots);
    ReserveExact(low, image, ram, slots);
    LimitSizes();
    assert Max(ram, image) == ram && CeilDiv(ram, PMD) == 512 * g && Units(image, ram) == 1 + g;
    RoomShort(g, 1 + g, RunTables(low / PAGE, image / PAGE) + OwnTables(M2pPages(slots)));
  }
}
