/** Loading the kernel image: chunks copied page by page to their link addresses, pages backed
    and zeroed at first touch, and the image read back and hashed. */
module Image {
  import opened Sizes
  import opened Splicing

  type Byte = bv8

  /** Touched pages by page number of their virtual address. */
  type Pages = map<nat, seq<Byte>>

  const WORD: nat := 0x1_0000_0000_0000_0000
  const KERNEL_MAP: nat := 0xffff_ffff_8000_0000
  const BASIS: bv64 := 1469598103934665603

  ghost predicate Sized(pages: Pages) {
    forall p :: p in pages ==> |pages[p]| == PAGE
  }

  /** The byte at an address; an untouched page counts as zero. */
  function ByteAt(pages: Pages, a: nat): Byte {
    if a / PAGE in pages && |pages[a / PAGE]| == PAGE then pages[a / PAGE][a % PAGE] else 0
  }

  function Bytes(pages: Pages, va: nat, n: nat): (s: seq<Byte>)
    ensures |s| == n
  {
    seq(n, i requires 0 <= i < n => ByteAt(pages, va + i))
  }

  function Zeros(): (s: seq<Byte>)
    ensures |s| == PAGE && forall i :: 0 <= i < PAGE ==> s[i] == 0
  {
    seq(PAGE, i => 0)
  }

  /** Only the n bytes from va on have changed, to data. */
  ghost predicate Wrote(pages: Pages, pages': Pages, va: nat, data: seq<Byte>) {
    forall a: nat :: ByteAt(pages', a) == if va <= a < va + |data| then data[a - va] else ByteAt(pages, a)
  }

  /** The pages that n bytes from va on lie in. */
  ghost predicate Touches(va: nat, n: nat, p: nat) {
    n > 0 && va / PAGE <= p <= (va + n - 1) / PAGE
  }

  ghost predicate Touched(pages: Pages, pages': Pages, va: nat, n: nat) {
    forall p: nat :: p in pages' <==> p in pages || Touches(va, n, p)
  }

  lemma TouchPage(pages: Pages, p: nat)
    requires Sized(pages) && p !in pages
    ensures Sized(pages[p := Zeros()]) && Wrote(pages, pages[p := Zeros()], p * PAGE, [])
  {
  }

  lemma WriteInPage(pages: Pages, va: nat, data: seq<Byte>)
    requires Sized(pages) && va / PAGE in pages && va % PAGE + |data| <= PAGE
    ensures var pages' := pages[va / PAGE := Splice(pages[va / PAGE], va % PAGE, data)];
            Sized(pages') && Wrote(pages, pages', va, data)
  {
    var pages' := pages[va / PAGE := Splice(pages[va / PAGE], va % PAGE, data)];
    forall a: nat ensures ByteAt(pages', a) == if va <= a < va + |data| then data[a - va] else ByteAt(pages, a) {
      if a / PAGE == va / PAGE {
        assert a % PAGE - va % PAGE == a - va;
      } else {
        OtherPage(va, |data|, a);
      }
    }
  }

  lemma OtherPage(va: nat, n: nat, a: nat)
    requires va % PAGE + n <= PAGE && a / PAGE != va / PAGE
    ensures !(va <= a < va + n)
  {
  }

  lemma WroteMore(p0: Pages, p1: Pages, p2: Pages, va: nat, a: seq<Byte>, b: seq<Byte>)
    requires Wrote(p0, p1, va, a) && Wrote(p1, p2, va + |a|, b)
    ensures Wrote(p0, p2, va, a + b)
  {
    forall x: nat ensures ByteAt(p2, x) == if va <= x < va + |a + b| then (a + b)[x - va] else ByteAt(p0, x) {
      assert ByteAt(p1, x) == if va <= x < va + |a| then a[x - va] else ByteAt(p0, x);
    }
  }

  lemma TouchedMore(p0: Pages, p1: Pages, p2: Pages, va: nat, n: nat, m: nat)
    requires Touched(p0, p1, va, n) && 0 < m <= PAGE - (va + n) % PAGE
    requires forall p: nat :: p in p2 <==> p in p1 || p == (va + n) / PAGE
    ensures Touched(p0, p2, va, n + m)
  {
    forall p: nat ensures p in p2 <==> p in p0 || Touches(va, n + m, p) {
      NextPage(va, n, m, p);
    }
  }

  lemma NextPage(va: nat, n: nat, m: nat, p: nat)
    requires 0 < m <= PAGE - (va + n) % PAGE
    ensures Touches(va, n + m, p) <==> Touches(va, n, p) || p == (va + n) / PAGE
  {
    assert (va + n + m - 1) / PAGE == (va + n) / PAGE;
    if n > 0 {
      assert (va + n) / PAGE <= (va + n - 1) / PAGE + 1;
    }
  }

  // ----- What the pages come to hold -----

  /** A chunk as far as it was loaded. */
  datatype Chunk = Chunk(va: nat, data: seq<Byte>)

  /** The last chunk that covered the address, or zero. */
  function Replay(log: seq<Chunk>, a: nat): Byte {
    if log == [] then 0
    else
      var c := log[|log| - 1];
      if c.va <= a < c.va + |c.data| then c.data[a - c.va] else Replay(log[..|log| - 1], a)
  }

  /** Before any chunk every byte is zero; then a chunk's own bytes are its data and no other changes. */
  lemma ReplayIs(log: seq<Chunk>, c: Chunk, a: nat)
    ensures Replay([], a) == 0
    ensures Replay(log + [c], a) == if c.va <= a < c.va + |c.data| then c.data[a - c.va] else Replay(log, a)
  {
    assert (log + [c])[..|log|] == log;
  }

  ghost predicate Holds(pages: Pages, log: seq<Chunk>) {
    forall a: nat :: ByteAt(pages, a) == Replay(log, a)
  }

  lemma HoldsMore(pages: Pages, pages': Pages, log: seq<Chunk>, va: nat, data: seq<Byte>)
    requires Holds(pages, log) && Wrote(pages, pages', va, data)
    ensures Holds(pages', log + [Chunk(va, data)])
  {
    var all := log + [Chunk(va, data)];
    assert all[..|log|] == log;
    forall a: nat ensures ByteAt(pages', a) == Replay(all, a) {
    }
  }

  /** One byte into an FNV-1a hash. */
  function Mix(h: bv64, b: Byte): bv64 {
    (h ^ (b as bv64)) * 1099511628211
  }

  function Fold(mix: (bv64, Byte) -> bv64, h: bv64, s: seq<Byte>): bv64 {
    if s == [] then h else mix(Fold(mix, h, s[..|s| - 1]), s[|s| - 1])
  }

  function Fnv(s: seq<Byte>): bv64 {
    Fold(Mix, BASIS, s)
  }

  lemma FoldNext(mix: (bv64, Byte) -> bv64, h: bv64, s: seq<Byte>, b: Byte)
    ensures Fold(mix, h, s + [b]) == mix(Fold(mix, h, s), b)
  {
    assert (s + [b])[..|s|] == s;
  }

  /** The hash of nothing, and of one byte more. */
  lemma FnvIs(s: seq<Byte>, b: Byte)
    ensures Fnv([]) == 1469598103934665603 && Fnv(s + [b]) == Mix(Fnv(s), b)
  {
    FoldNext(Mix, BASIS, s, b);
  }

  /** One byte is taken in by exclusive or and then the product. */
  lemma MixIs(h: bv64, b: Byte)
    ensures Mix(h, b) == (h ^ (b as bv64)) * 1099511628211
  {
  }

  /** The sum of a single byte, the letter a. */
  lemma FnvOfA()
    ensures Fnv([0x61]) == 4953267810257967366
  {
    FnvIs([], 0x61);
    assert [] + [0x61] == [0x61 as Byte];
    MixIs(1469598103934665603, 0x61);
  }

  lemma {:induction false} FoldJoin(mix: (bv64, Byte) -> bv64, h: bv64, a: seq<Byte>, b: seq<Byte>)
    ensures Fold(mix, h, a + b) == Fold(mix, Fold(mix, h, a), b)
    decreases |b|
  {
    if b == [] {
      assert a + b == a;
    } else {
      var b1 := b[..|b| - 1];
      FoldJoin(mix, h, a, b1);
      assert (a + b)[..|a + b| - 1] == a + b1;
    }
  }

  /** Hashes a stretch of one page. */
  method HashPart(mix: (bv64, Byte) -> bv64, start: bv64, s: seq<Byte>) returns (sum: bv64)
    ensures sum == Fold(mix, start, s)
  {
    sum := start;
    for i := 0 to |s|
      invariant sum == Fold(mix, start, s[..i])
    {
      assert s[..i + 1][..i] == s[..i];
      sum := mix(sum, s[i]);
    }
    assert s[..|s|] == s;
  }

  lemma BytesJoin(pages: Pages, va: nat, n: nat, m: nat)
    ensures Bytes(pages, va, n + m) == Bytes(pages, va, n) + Bytes(pages, va + n, m)
  {
    var (l, r) := (Bytes(pages, va, n + m), Bytes(pages, va, n) + Bytes(pages, va + n, m));
    forall i | 0 <= i < n + m ensures l[i] == r[i] {
      assert n <= i ==> va + n + (i - n) == va + i;
    }
  }

  lemma BytesInPage(pages: Pages, va: nat, m: nat)
    requires Sized(pages) && va / PAGE in pages && m <= PAGE - va % PAGE
    ensures Bytes(pages, va, m) == pages[va / PAGE][va % PAGE..va % PAGE + m]
  {
    var (l, r) := (Bytes(pages, va, m), pages[va / PAGE][va % PAGE..va % PAGE + m]);
    forall i | 0 <= i < m ensures l[i] == r[i] {
      InPage(va, i);
    }
  }

  lemma InPage(va: nat, i: nat)
    requires i < PAGE - va % PAGE
    ensures (va + i) / PAGE == va / PAGE && (va + i) % PAGE == va % PAGE + i
  {
  }

  // ----- The code -----

  datatype Code = Ok | Invalid | NotFound

  /** A page that may be loaded at its link address. */
  predicate InImage(page: nat, tableStart: nat) {
    KERNEL_MAP <= page * PAGE && page * PAGE - KERNEL_MAP + PAGE <= tableStart
  }

  /** All of the bytes lie in touched pages. */
  ghost predicate Covered(pages: Pages, va: nat, n: nat) {
    forall p: nat :: Touches(va, n, p) ==> p in pages
  }

  /** The first n bytes of a chunk are in; a zeroing chunk only touches. */
  ghost predicate Loaded(pages: Pages, pages': Pages, va: nat, data: seq<Byte>, n: nat, zero: bool)
    requires zero || n <= |data|
  {
    Wrote(pages, pages', va, if zero then [] else data[..n]) && Touched(pages, pages', va, n)
  }

  lemma LoadedMore(p0: Pages, p1: Pages, p2: Pages, va: nat, data: seq<Byte>, n: nat, m: nat, zero: bool)
    requires (zero || n + m <= |data|) && Loaded(p0, p1, va, data, n, zero) && 0 < m <= PAGE - (va + n) % PAGE
    requires Wrote(p1, p2, va + n, if zero then [] else data[n..n + m])
    requires forall p: nat :: p in p2 <==> p in p1 || p == (va + n) / PAGE
    ensures Loaded(p0, p2, va, data, n + m, zero)
  {
    TouchedMore(p0, p1, p2, va, n, m);
    if zero {
      forall a: nat ensures ByteAt(p2, a) == ByteAt(p0, a) {
        assert ByteAt(p1, a) == ByteAt(p0, a);
      }
    } else {
      WroteMore(p0, p1, p2, va, data[..n], data[n..n + m]);
      assert data[..n] + data[n..n + m] == data[..n + m];
    }
  }

  class Loader {
    const minVa: nat
    const maxVa: nat
    const tableStart: nat
    var pages: Pages
    var chunks: nat
    ghost var log: seq<Chunk>

    /** Every byte of every page is what the chunks so far make it. */
    ghost predicate Valid()
      reads this
    {
      Sized(pages) && Holds(pages, log)
    }

    constructor (minVa: nat, maxVa: nat, tableStart: nat)
      ensures Valid() && pages == map[] && log == [] && chunks == 0
      ensures this.minVa == minVa && this.maxVa == maxVa && this.tableStart == tableStart
    {
      this.minVa, this.maxVa, this.tableStart := minVa, maxVa, tableStart;
      pages, chunks, log := map[], 0, [];
    }

    /** The page is there, if need be zeroed at this first touch. */
    method PageFor(page: nat) returns (rc: Code)
      requires Sized(pages)
      modifies `pages
      ensures Sized(pages) && Wrote(old(pages), pages, page * PAGE, [])
      ensures rc == if page in old(pages) || InImage(page, tableStart) then Ok else Invalid
      ensures rc == Ok ==> forall p: nat :: p in pages <==> p in old(pages) || p == page
      ensures rc != Ok ==> pages == old(pages)
    {
      if page in pages {
        return Ok;
      }
      if page * PAGE < KERNEL_MAP {
        return Invalid;
      }
      if page * PAGE - KERNEL_MAP + PAGE > tableStart {
        return Invalid;
      }
      TouchPage(pages, page);
      pages := pages[page := Zeros()];
      return Ok;
    }

    /** One page's part of a chunk; a zeroing chunk writes nothing. */
    method LoadPart(va: nat, data: seq<Byte>) returns (rc: Code)
      requires Sized(pages) && va % PAGE + |data| <= PAGE
      modifies `pages
      ensures Sized(pages)
      ensures rc == if va / PAGE in old(pages) || InImage(va / PAGE, tableStart) then Ok else Invalid
      ensures rc == Ok ==> Wrote(old(pages), pages, va, data)
      ensures rc == Ok ==> forall p: nat :: p in pages <==> p in old(pages) || p == va / PAGE
      ensures rc != Ok ==> pages == old(pages)
    {
      rc := PageFor(va / PAGE);
      if rc == Ok {
        ghost var pages1 := pages;
        WriteInPage(pages, va, data);
        pages := pages[va / PAGE := Splice(pages[va / PAGE], va % PAGE, data)];
        forall a: nat ensures ByteAt(pages,
            a) == if va <= a < va + |data| then data[a - va] else ByteAt(old(pages), a) {
          assert ByteAt(pages1, a) == ByteAt(old(pages), a);
        }
      }
    }

    /** The page loop: it stops at the first page that may not be loaded. */
    method LoadParts(va: nat, data: seq<Byte>, size: nat, zero: bool) returns (rc: Code, done: nat)
      requires Sized(pages) && (zero || |data| == size)
      modifies `pages
      ensures Sized(pages) && done <= size && (rc == Ok <==> done == size)
              && Loaded(old(pages), pages, va, data, done, zero)
      ensures rc != Ok ==> rc == Invalid && (va + done) / PAGE !in pages && !InImage((va + done) / PAGE, tableStart)
      ensures forall p: nat :: p in pages ==> p in old(pages) || InImage(p, tableStart)
    {
      done := 0;
      while done < size
        invariant Sized(pages) && done <= size && Loaded(old(pages), pages, va, data, done, zero)
        invariant forall p: nat :: p in pages ==> p in old(pages) || InImage(p, tableStart)
      {
        var part := Min(PAGE - (va + done) % PAGE, size - done);
        ghost var before := pages;
        rc := LoadPart(va + done, if zero then [] else data[done..done + part]);
        if rc != Ok {
          return;
        }
        LoadedMore(old(pages), before, pages, va, data, done, part, zero);
        done := done + part;
      }
      rc := Ok;
    }

    /** Loads a chunk and keeps the record of what was loaded. */
    method Load(va: nat, data: seq<Byte>, size: nat, zero: bool) returns (rc: Code, done: nat)
      requires Valid() && (zero || |data| == size) && va < WORD
      modifies `pages, `chunks, `log
      ensures Valid() && done <= size && (rc == Ok <==> done == size && va >= minVa && (va + size) % WORD <= maxVa)
      ensures log == old(log) + [Chunk(va, if zero then [] else data[..done])] && Touched(old(pages), pages, va, done)
      ensures (va < minVa || (va + size) % WORD > maxVa) ==> rc == Invalid && done == 0 && pages == old(pages)
      ensures rc != Ok && va >= minVa && (va + size) % WORD <= maxVa ==>
                rc == Invalid && (va + done) / PAGE !in pages && !InImage((va + done) / PAGE, tableStart)
      ensures rc == Ok <==>
              && va >= minVa && (va + size) % 0x1_0000_0000_0000_0000 <= maxVa
              && forall p: nat :: Touches(va, size, p) ==>
                   || p in old(pages)
                   || 0xffff_ffff_8000_0000 <= p * 4096 <= 0xffff_ffff_8000_0000 + tableStart - 4096
      ensures chunks == if rc == Ok then old(chunks) + 1 else old(chunks)
    {
      ghost var laid: seq<Byte>;
      if va < minVa || (va + size) % WORD > maxVa {
        rc, done, laid := Invalid, 0, [];
        assert data == [] || data[..0] == [];
      } else {
        rc, done := LoadParts(va, data, size, zero);
        laid := if zero then [] else data[..done];
        if rc != Ok {
          assert Touches(va, size, (va + done) / PAGE);
        }
        if rc == Ok {
          chunks := chunks + 1;
        }
      }
      HoldsMore(old(pages), pages, log, va, laid);
      log := log + [Chunk(va, laid)];
    }

    /** Reads bytes back through touched pages only. */
    method Read(va: nat, size: nat) returns (rc: Code, buf: seq<Byte>)
      requires Valid()
      ensures rc == if Covered(pages, va, size) then Ok else NotFound
      ensures rc == Ok ==> |buf| == size && forall i :: 0 <= i < size ==> buf[i] == Replay(log, va + i)
    {
      buf := [];
      while |buf| < size
        invariant |buf| <= size && Covered(pages, va, |buf|) && buf == Bytes(pages, va, |buf|)
      {
        var at := va + |buf|;
        var part := Min(PAGE - at % PAGE, size - |buf|);
        if at / PAGE !in pages {
          assert Touches(va, size, at / PAGE);
          return NotFound, buf;
        }
        CoveredMore(pages, va, |buf|, part);
        BytesInPage(pages, at, part);
        BytesJoin(pages, va, |buf|, part);
        buf := buf + pages[at / PAGE][at % PAGE..at % PAGE + part];
      }
      return Ok, buf;
    }

    /** The hash of what the guest would read there. */
    method Verify(va: nat, size: nat) returns (rc: Code, sum: bv64, ghost content: seq<Byte>)
      requires Valid()
      ensures rc == if Covered(pages, va, size) then Ok else NotFound
      ensures rc == Ok ==> |content| == size && forall i :: 0 <= i < size ==> content[i] == Replay(log, va + i)
      ensures rc == Ok ==> sum == Fnv(content)
    {
      rc, sum := HashAll(Mix, BASIS, va, size);
      content := Bytes(pages, va, size);
    }

    method HashAll(mix: (bv64, Byte) -> bv64, basis: bv64, va: nat, size: nat) returns (rc: Code, sum: bv64)
      requires Sized(pages)
      ensures rc == if Covered(pages, va, size) then Ok else NotFound
      ensures rc == Ok ==> sum == Fold(mix, basis, Bytes(pages, va, size))
    {
      sum := basis;
      var done: nat := 0;
      while done < size
        invariant done <= size && Covered(pages, va, done) && sum == Fold(mix, basis, Bytes(pages, va, done))
      {
        var part := Min(PAGE - (va + done) % PAGE, size - done);
        if (va + done) / PAGE !in pages {
          assert Touches(va, size, (va + done) / PAGE);
          return NotFound, sum;
        }
        CoveredMore(pages, va, done, part);
        var bytes := pages[(va + done) / PAGE][(va + done) % PAGE..(va + done) % PAGE + part];
        HashedMore(mix, basis, pages, va, done, part, bytes);
        sum := HashPart(mix, sum, bytes);
        done := done + part;
      }
      return Ok, sum;
    }
  }

  lemma HashedMore(mix: (bv64, Byte) -> bv64, h: bv64, pages: Pages, va: nat, n: nat, m: nat, part: seq<Byte>)
    requires Sized(pages) && (va + n) / PAGE in pages && m <= PAGE - (va + n) % PAGE
    requires part == pages[(va + n) / PAGE][(va + n) % PAGE..(va + n) % PAGE + m]
    ensures Fold(mix, Fold(mix, h, Bytes(pages, va, n)), part) == Fold(mix, h, Bytes(pages, va, n + m))
  {
    BytesInPage(pages, va + n, m);
    BytesJoin(pages, va, n, m);
    FoldJoin(mix, h, Bytes(pages, va, n), part);
  }

  lemma CoveredMore(pages: Pages, va: nat, n: nat, m: nat)
    requires Covered(pages, va, n) && (va + n) / PAGE in pages && 0 < m <= PAGE - (va + n) % PAGE
    ensures Covered(pages, va, n + m)
  {
    forall p: nat | Touches(va, n + m, p) ensures p in pages {
      NextPage(va, n, m, p);
    }
  }
}
