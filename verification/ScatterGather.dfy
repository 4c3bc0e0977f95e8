/** Block requests on guest memory that lies in separate host allocations: page by page
    transfers against a flat copy. */
module ScatterGather {
  import opened BlockIndex
  import opened Sizes
  import opened Splicing

  type Byte = b: nat | b < 256

  const MAX_SG: nat := 128
  const MAX_SEGMENT: nat := 0x10_0000
  const DESCRIPTOR: nat := 16

  // ----- Flat bytes -----

  lemma SpliceEmpty(s: seq<Byte>, at: nat)
    requires at <= |s|
    ensures Splice(s, at, []) == s
  {
  }

  lemma SpliceSplice(s: seq<Byte>, at: nat, a: seq<Byte>, b: seq<Byte>)
    requires at + |a| + |b| <= |s|
    ensures Splice(Splice(s, at, a), at + |a|, b) == Splice(s, at, a + b)
  {
    var s1 := Splice(s, at, a);
    assert s1[..at + |a|] == s[..at] + a;
    assert s1[at + |a| + |b|..] == s[at + |a| + |b|..];
  }

  lemma SpliceApart(s: seq<Byte>, at: nat, data: seq<Byte>, lo: nat, hi: nat)
    requires at + |data| <= |s| && lo <= hi <= |s| && (hi <= at || at + |data| <= lo)
    ensures Splice(s, at, data)[lo..hi] == s[lo..hi]
  {
    var (l, r) := (Splice(s, at, data)[lo..hi], s[lo..hi]);
    assert forall i :: 0 <= i < hi - lo ==> l[i] == r[i];
  }

  lemma SpliceThere(s: seq<Byte>, at: nat, data: seq<Byte>)
    requires at + |data| <= |s|
    ensures Splice(s, at, data)[at..at + |data|] == data
  {
  }

  lemma SliceJoin(s: seq<Byte>, a: nat, b: nat, c: nat)
    requires a <= b <= c <= |s|
    ensures s[a..b] + s[b..c] == s[a..c]
  {
  }

  // ----- Host allocations -----

  function Flatten(host: seq<seq<Byte>>): seq<Byte> {
    if host == [] then [] else host[0] + Flatten(host[1..])
  }

  /** Each block of the index has its bytes. */
  ghost predicate Backs(blocks: seq<Block>, host: seq<seq<Byte>>) {
    Tiled(blocks) && |host| == |blocks| && forall k :: 0 <= k < |host| ==> |host[k]| == blocks[k].pages * PAGE
  }

  lemma {:induction false} FlattenSplit(host: seq<seq<Byte>>, k: nat)
    requires k <= |host|
    ensures Flatten(host) == Flatten(host[..k]) + Flatten(host[k..])
  {
    if k == 0 {
      assert host[..0] == [] && host[0..] == host;
    } else {
      var rest := host[1..];
      FlattenSplit(rest, k - 1);
      assert host[..k][1..] == rest[..k - 1] && host[k..] == rest[k - 1..];
      assert Flatten(host[..k]) == host[0] + Flatten(rest[..k - 1]);
    }
  }

  /** One allocation among the others. */
  lemma FlattenAround(host: seq<seq<Byte>>, k: nat)
    requires k < |host|
    ensures Flatten(host) == Flatten(host[..k]) + host[k] + Flatten(host[k + 1..])
  {
    FlattenSplit(host, k);
    assert host[k..][1..] == host[k + 1..];
    assert Flatten(host[k..]) == host[k] + Flatten(host[k + 1..]);
  }

  lemma {:induction false} FlattenLength(blocks: seq<Block>, host: seq<seq<Byte>>, k: nat)
    requires Backs(blocks, host) && k <= |blocks|
    ensures |Flatten(host[..k])| == End(blocks[..k]) * PAGE
  {
    if k == 0 {
      assert host[..0] == [] && blocks[..0] == [];
    } else {
      FlattenLength(blocks, host, k - 1);
      var h := host[..k];
      FlattenAround(h, k - 1);
      assert h[..k - 1] == host[..k - 1] && h[k..] == [];
      assert blocks[k - 1].base == End(blocks[..k - 1]) && blocks[..k][k - 1] == blocks[k - 1];
    }
  }

  lemma SliceInside(a: seq<Byte>, b: seq<Byte>, c: seq<Byte>, lo: nat, n: nat)
    requires lo + n <= |b|
    ensures (a + b + c)[|a| + lo..|a| + lo + n] == b[lo..lo + n]
  {
    var (l, r) := ((a + b + c)[|a| + lo..|a| + lo + n], b[lo..lo + n]);
    assert forall i :: 0 <= i < n ==> l[i] == r[i];
  }

  lemma SpliceInside(a: seq<Byte>, b: seq<Byte>, c: seq<Byte>, lo: nat, data: seq<Byte>)
    requires lo + |data| <= |b|
    ensures a + Splice(b, lo, data) + c == Splice(a + b + c, |a| + lo, data)
  {
    var (l, r) := (a + Splice(b, lo, data) + c, Splice(a + b + c, |a| + lo, data));
    assert forall i :: 0 <= i < |l| ==> l[i] == r[i];
  }

  /** Within a page, the bytes of an allocation are the flat bytes. */
  lemma PageRead(blocks: seq<Block>, host: seq<seq<Byte>>, k: nat, lo: nat, n: nat)
    requires Backs(blocks, host) && k < |host| && lo + n <= |host[k]|
    ensures blocks[k].base * PAGE + lo + n <= |Flatten(host)|
    ensures Flatten(host)[blocks[k].base * PAGE + lo..blocks[k].base * PAGE + lo + n] == host[k][lo..lo + n]
  {
    FlattenAround(host, k);
    FlattenLength(blocks, host, k);
    SliceInside(Flatten(host[..k]), host[k], Flatten(host[k + 1..]), lo, n);
  }

  /** ... and writing them there splices the flat bytes. */
  lemma PageWrite(blocks: seq<Block>, host: seq<seq<Byte>>, k: nat, lo: nat, data: seq<Byte>)
    requires Backs(blocks, host) && k < |host| && lo + |data| <= |host[k]|
    ensures var host' := host[k := Splice(host[k], lo, data)];
            && Backs(blocks, host')
            && blocks[k].base * PAGE + lo + |data| <= |Flatten(host)|
            && Flatten(host') == Splice(Flatten(host), blocks[k].base * PAGE + lo, data)
  {
    var host' := host[k := Splice(host[k], lo, data)];
    FlattenAround(host, k);
    FlattenAround(host', k);
    FlattenLength(blocks, host, k);
    assert host'[..k] == host[..k] && host'[k + 1..] == host[k + 1..];
    SpliceInside(Flatten(host[..k]), host[k], Flatten(host[k + 1..]), lo, data);
  }

  // ----- One run -----

  datatype Code = Ok | Error | Invalid

  /** How much of a run lies in guest RAM before the transfer runs out of it. */
  function Inside(ram: nat, pa: nat, size: nat): (n: nat)
    ensures n <= size && (n > 0 ==> pa + n <= ram)
  {
    if pa < ram then Min(size, ram - pa) else 0
  }

  /** Memory, disk and outcome. */
  datatype Outcome = Outcome(ram: seq<Byte>, disk: seq<Byte>, rc: Code)

  /** Memory and disk once d bytes are copied. */
  function After(ram: seq<Byte>, disk: seq<Byte>, offset: nat, pa: nat, d: nat, write: bool): (r: (seq<Byte>,
                 seq<Byte>))
    requires d > 0 ==> pa + d <= |ram| && offset + d <= |disk|
    ensures |r.0| == |ram| && |r.1| == |disk|
  {
    if d == 0 then (ram, disk)
    else if write then (ram, Splice(disk, offset, ram[pa..pa + d]))
    else (Splice(ram, pa, disk[offset..offset + d]), disk)
  }

  /** Copying on from where the first part ended. */
  lemma AfterMore(ram: seq<Byte>, disk: seq<Byte>, offset: nat, pa: nat, d: nat, n: nat, write: bool)
    requires n > 0 && pa + d + n <= |ram| && offset + d + n <= |disk|
    ensures var (ram1, disk1) := After(ram, disk, offset, pa, d, write);
            After(ram1, disk1, offset + d, pa + d, n, write) == After(ram, disk, offset, pa, d + n, write)
  {
    if d > 0 && write {
      SpliceSplice(disk, offset, ram[pa..pa + d], ram[pa + d..pa + d + n]);
      SliceJoin(ram, pa, pa + d, pa + d + n);
    } else if d > 0 {
      SpliceSplice(ram, pa, disk[offset..offset + d], disk[offset + d..offset + d + n]);
      SliceJoin(disk, offset, offset + d, offset + d + n);
    }
  }

  /** One flat copy between the run and the disk; a run that leaves RAM is copied up to there. */
  function Transfer(ram: seq<Byte>, disk: seq<Byte>, offset: nat, pa: nat, size: nat, write: bool): (r: Outcome)
    ensures |r.ram| == |ram| && |r.disk| == |disk|
  {
    if size == 0 then Outcome(ram, disk, Ok)
    else if offset > |disk| || size > |disk| - offset then Outcome(ram, disk, Invalid)
    else
      var n := Inside(|ram|, pa, size);
      var (ram1, disk1) := After(ram, disk, offset, pa, n, write);
      Outcome(ram1, disk1, if n == size then Ok else Error)
  }

  /** Only one unit's disk may differ. */
  ghost predicate OthersStay(a: map<int, seq<Byte>>, b: map<int, seq<Byte>>, unit: int) {
    a.Keys == b.Keys && forall u :: u in b && u != unit ==> b[u] == a[u]
  }

  class Device {
    const index: Index
    var host: seq<seq<Byte>>
    var disks: map<int, seq<Byte>>

    ghost predicate Valid()
      reads this, index
    {
      Backs(index.blocks, host)
    }

    constructor (index: Index, host: seq<seq<Byte>>, disks: map<int, seq<Byte>>)
      requires Backs(index.blocks, host)
      ensures Valid() && this.index == index && this.host == host && this.disks == disks
    {
      this.index, this.host, this.disks := index, host, disks;
    }

    ghost function Ram(): seq<Byte>
      reads this
    {
      Flatten(host)
    }

    /** Bytes inside one page, through the page's own allocation. */
    method ReadPage(pa: nat, n: nat) returns (ok: bool, bytes: seq<Byte>)
      requires Valid() && 0 < n <= PAGE - pa % PAGE
      modifies index
      ensures Valid() && (ok <==> pa < |Ram()|)
      ensures ok ==> pa + n <= |Ram()| && bytes == Ram()[pa..pa + n]
    {
      PageBounds(index.blocks, host, pa);
      var at := index.Find(pa / PAGE);
      if at == Nowhere {
        return false, [];
      }
      var lo := at.page * PAGE + pa % PAGE;
      Located(index.blocks, host, pa, n, at);
      PageRead(index.blocks, host, at.block, lo, n);
      return true, host[at.block][lo..lo + n];
    }

    method WritePage(pa: nat, bytes: seq<Byte>) returns (ok: bool)
      requires Valid() && 0 < |bytes| <= PAGE - pa % PAGE
      modifies `host, index
      ensures Valid() && (ok <==> pa < |old(Ram())|)
      ensures ok ==> pa + |bytes| <= |old(Ram())| && Ram() == Splice(old(Ram()), pa, bytes)
      ensures !ok ==> host == old(host)
    {
      PageBounds(index.blocks, host, pa);
      var at := index.Find(pa / PAGE);
      if at == Nowhere {
        return false;
      }
      var lo := at.page * PAGE + pa % PAGE;
      Located(index.blocks, host, pa, |bytes|, at);
      PageWrite(index.blocks, host, at.block, lo, bytes);
      host := host[at.block := Splice(host[at.block], lo, bytes)];
      return true;
    }

    /** One chunk: between a page of guest memory and the disk. */
    method MoveChunk(unit: int, offset: nat, pa: nat, n: nat, write: bool) returns (ok: bool)
      requires Valid() && unit in disks && 0 < n <= PAGE - pa % PAGE && offset + n <= |disks[unit]|
      modifies this, index
      ensures Valid() && disks.Keys == old(disks).Keys && (ok <==> pa < |old(Ram())|)
      ensures ok ==> pa + n <= |old(Ram())|
      ensures ok ==> (Ram(), disks[unit]) == After(old(Ram()), old(disks)[unit], offset, pa, n, write)
      ensures !ok ==> Ram() == old(Ram()) && disks[unit] == old(disks)[unit]
      ensures forall u :: u in disks && u != unit ==> disks[u] == old(disks)[u]
    {
      if write {
        var bytes;
        ok, bytes := ReadPage(pa, n);
        if ok {
          disks := disks[unit := Splice(disks[unit], offset, bytes)];
        }
      } else {
        ok := WritePage(pa, disks[unit][offset..offset + n]);
      }
    }

    /** The page loop; a run that leaves guest memory is moved up to there. */
    method Move(unit: int, offset: nat, pa: nat, size: nat, write: bool) returns (d: nat)
      requires Valid() && unit in disks && offset + size <= |disks[unit]|
      modifies this, index
      ensures Valid() && disks.Keys == old(disks).Keys && d == Inside(|old(Ram())|, pa, size)
      ensures (Ram(), disks[unit]) == After(old(Ram()), old(disks)[unit], offset, pa, d, write)
      ensures forall u :: u in disks && u != unit ==> disks[u] == old(disks)[u]
    {
      ghost var (ram, disk) := (Ram(), disks[unit]);
      d := 0;
      while d < size
        invariant Valid() && disks.Keys == old(disks).Keys && d <= size && (d > 0 ==> pa + d <= |ram|)
        invariant (Ram(), disks[unit]) == After(ram, disk, offset, pa, d, write)
        invariant forall u :: u in disks && u != unit ==> disks[u] == old(disks)[u]
      {
        var chunk := Min(PAGE - (pa + d) % PAGE, size - d);
        var ok := MoveChunk(unit, offset + d, pa + d, chunk, write);
        if !ok {
          return;
        }
        AfterMore(ram, disk, offset, pa, d, chunk, write);
        d := d + chunk;
      }
    }

    /** A run, page by page: the flat copy, whatever the layout of the allocations. */
    method Request(unit: int, offset: nat, pa: nat, size: nat, write: bool) returns (rc: Code)
      requires Valid()
      modifies this, index
      ensures Valid() && disks.Keys == old(disks).Keys
      ensures unit !in disks ==> rc == Invalid && Ram() == old(Ram()) && disks == old(disks)
      ensures unit in disks ==>
                Outcome(Ram(), disks[unit], rc) == Transfer(old(Ram()), old(disks)[unit], offset, pa, size, write)
      ensures forall u :: u in disks && u != unit ==> disks[u] == old(disks)[u]
    {
      if unit !in disks {
        return Invalid;
      }
      if size == 0 {
        return Ok;
      }
      if offset > |disks[unit]| || size > |disks[unit]| - offset {
        return Invalid;
      }
      var d := Move(unit, offset, pa, size, write);
      return if d == size then Ok else Error;
    }

    /** One descriptor, copied a page at a time since it may straddle two. */
    method ReadDescriptor(pa: nat) returns (ok: bool, bytes: seq<Byte>)
      requires Valid()
      modifies index
      ensures Valid() && (ok <==> pa + DESCRIPTOR <= |Ram()|)
      ensures ok ==> bytes == Ram()[pa..pa + DESCRIPTOR]
    {
      bytes := [];
      while |bytes| < DESCRIPTOR
        invariant Valid() && |bytes| <= DESCRIPTOR
        invariant |bytes| > 0 ==> pa + |bytes| <= |Ram()| && bytes == Ram()[pa..pa + |bytes|]
      {
        var at := pa + |bytes|;
        var part := Min(PAGE - at % PAGE, DESCRIPTOR - |bytes|);
        var good, more := ReadPage(at, part);
        if !good {
          return false, [];
        }
        bytes := bytes + more;
      }
      return true, bytes;
    }

    /** A request with its descriptor list: what taking the runs one by one on flat memory does. */
    method RequestSg(unit: int, offset: nat, list: nat, count: nat, write: bool) returns (rc: Code)
      requires Valid()
      modifies this, index
      ensures Valid() && disks.Keys == old(disks).Keys
      ensures unit !in disks || count == 0 || count > 128 ==>
                rc == Invalid && Ram() == old(Ram()) && disks == old(disks)
      ensures unit in disks && 0 < count <= 128 ==>
                Outcome(Ram(), disks[unit], rc) == TransferAll(old(Ram()), old(disks)[unit], offset, list, count, write)
      ensures forall u :: u in disks && u != unit ==> disks[u] == old(disks)[u]
    {
      if unit !in disks {
        return Invalid;
      }
      if count == 0 || count > MAX_SG {
        return Invalid;
      }
      rc := MoveAll(unit, offset, list, count, write);
    }

    method MoveOne(unit: int, offset: nat, at: nat, write: bool) returns (rc: Code, len: nat)
      requires Valid() && unit in disks
      modifies this, index
      ensures Valid() && disks.Keys == old(disks).Keys
      ensures (Outcome(Ram(), disks[unit], rc), len) == TransferOne(old(Ram()), old(disks)[unit], offset, at, write)
      ensures forall u :: u in disks && u != unit ==> disks[u] == old(disks)[u]
    {
      var ok, bytes := ReadDescriptor(at);
      if !ok {
        return Error, 0;
      }
      var d := RunOf(bytes);
      if d.len == 0 || d.len > MAX_SEGMENT {
        return Invalid, 0;
      }
      rc := Request(unit, offset, d.pa, d.len, write);
      len := d.len;
    }

    /** The next descriptor, and where the one after it is. */
    method MoveNext(unit: int, offset: nat, at: nat, left: nat, write: bool, ghost all: Outcome)
      returns (rc: Code, offset': nat, at': nat, left': nat)
      requires Valid() && unit in disks && left > 0 && Leads(Ram(), disks[unit], offset, at, left, write, all)
      modifies this, index
      ensures Valid() && unit in disks && OthersStay(old(disks), disks, unit) && left' < left
      ensures rc != Ok ==> Outcome(Ram(), disks[unit], rc) == all
      ensures rc == Ok ==> Leads(Ram(), disks[unit], offset', at', left', write, all)
    {
      ghost var (ram, disk) := (Ram(), disks[unit]);
      var len;
      rc, len := MoveOne(unit, offset, at, write);
      offset', at', left' := offset + len, at + DESCRIPTOR, left - 1;
      LeadsOn(ram, disk, offset, at, left, write, all, Outcome(Ram(), disks[unit], rc), len);
    }

    method MoveAll(unit: int, start: nat, list: nat, count: nat, write: bool) returns (rc: Code)
      requires Valid() && unit in disks
      modifies this, index
      ensures Valid() && disks.Keys == old(disks).Keys
      ensures Outcome(Ram(), disks[unit], rc) == TransferAll(old(Ram()), old(disks)[unit], start, list, count, write)
      ensures forall u :: u in disks && u != unit ==> disks[u] == old(disks)[u]
    {
      var left: nat, at: nat, offset: nat := count, list, start;
      ghost var (all, was) := (TransferAll(Ram(), disks[unit], start, list, count, write), disks);
      LeadsAll(Ram(), disks[unit], start, list, count, write);
      while left > 0
        invariant Valid() && unit in disks && OthersStay(was, disks, unit)
        invariant Leads(Ram(), disks[unit], offset, at, left, write, all)
      {
        rc, offset, at, left := MoveNext(unit, offset, at, left, write, all);
        if rc != Ok {
          return;
        }
      }
      LeadsEnd(Ram(), disks[unit], offset, at, write, all);
      return Ok;
    }
  }

  // ----- A list of runs -----

  datatype Run = Run(pa: nat, len: nat)

  function LittleEndian(b: seq<Byte>): nat {
    if b == [] then 0 else b[0] + 256 * LittleEndian(b[1..])
  }

  function RunOf(b: seq<Byte>): Run
    requires |b| == DESCRIPTOR
  {
    Run(LittleEndian(b[..8]), LittleEndian(b[8..12]))
  }

  lemma Eight(b: seq<Byte>)
    requires |b| == 8
    ensures LittleEndian(b) == LittleEndian(b[..4]) + 0x1_0000_0000 * LittleEndian(b[4..])
  {
    var (lo, hi) := (b[..4], b[4..]);
    Four(lo);
    Four(hi);
    EightBytes(b);
  }

  lemma Four(b: seq<Byte>)
    requires |b| == 4
    ensures LittleEndian(b)
            == b[0] as nat + 0x100 * (b[1] as nat) + 0x1_0000 * (b[2] as nat) + 0x100_0000 * (b[3] as nat)
  {
    var (b1, b2, b3) := (b[1..], b[2..], b[3..]);
    assert b1[1..] == b2 && b2[1..] == b3 && b3[1..] == [];
    assert LittleEndian(b3) == b[3] as nat;
    assert LittleEndian(b2) == b[2] as nat + 256 * LittleEndian(b3);
    assert LittleEndian(b1) == b[1] as nat + 256 * LittleEndian(b2);
  }

  lemma EightBytes(b: seq<Byte>)
    requires |b| == 8
    ensures LittleEndian(b)
            == b[0] as nat + 0x100 * (b[1] as nat) + 0x1_0000 * (b[2] as nat) + 0x100_0000 * (b[3] as nat)
               + 0x1_0000_0000 * (b[4] as nat) + 0x100_0000_0000 * (b[5] as nat)
               + 0x1_0000_0000_0000 * (b[6] as nat) + 0x100_0000_0000_0000 * (b[7] as nat)
  {
    var (b1, b2, b3, b4) := (b[1..], b[2..], b[3..], b[4..]);
    assert b1[1..] == b2 && b2[1..] == b3 && b3[1..] == b4;
    Four(b4);
    assert LittleEndian(b3) == b[3] as nat + 256 * LittleEndian(b4);
    assert LittleEndian(b2) == b[2] as nat + 256 * LittleEndian(b3);
    assert LittleEndian(b1) == b[1] as nat + 256 * LittleEndian(b2);
  }

  /** A descriptor's first eight bytes are the address, the next four the length, each lowest byte
      first, and the last four are nothing. */
  lemma RunIs(b: seq<Byte>)
    requires |b| == 16
    ensures RunOf(b).pa
            == b[0] as nat + 0x100 * (b[1] as nat) + 0x1_0000 * (b[2] as nat) + 0x100_0000 * (b[3] as nat)
               + 0x1_0000_0000 * (b[4] as nat) + 0x100_0000_0000 * (b[5] as nat)
               + 0x1_0000_0000_0000 * (b[6] as nat) + 0x100_0000_0000_0000 * (b[7] as nat)
    ensures RunOf(b).len
            == b[8] as nat + 0x100 * (b[9] as nat) + 0x1_0000 * (b[10] as nat) + 0x100_0000 * (b[11] as nat)
  {
    EightBytes(b[..8]);
    Four(b[8..12]);
  }

  /** A number below 2^32 as its bytes, lowest first. */
  function Bytes4(n: nat): (b: seq<Byte>)
    requires n < 0x1_0000_0000
    ensures |b| == 4
  {
    [n % 256, n / 0x100 % 256, n / 0x1_0000 % 256, n / 0x100_0000]
  }

  lemma Bytes4Is(n: nat)
    requires n < 0x1_0000_0000
    ensures LittleEndian(Bytes4(n)) == n
  {
    Four(Bytes4(n));
    var (a, b) := (n / 0x100, n / 0x1_0000);
    assert a == n / 0x100 && n == a * 0x100 + n % 256;
    assert a / 0x100 == b && a == b * 0x100 + a % 256;
    assert b / 0x100 == n / 0x100_0000 && b == n / 0x100_0000 * 0x100 + b % 256;
  }

  /** The descriptor the guest lays for a run, with anything in its padding. */
  function Descriptor(pa: nat, len: nat, pad: seq<Byte>): (b: seq<Byte>)
    requires pa < 0x1_0000_0000_0000_0000 && len < 0x1_0000_0000 && |pad| == 4
    ensures |b| == 16
  {
    Bytes4(pa % 0x1_0000_0000) + Bytes4(pa / 0x1_0000_0000) + Bytes4(len) + pad
  }

  /** Every run of 64-bit address and 32-bit length reads back from its descriptor. */
  lemma DescriptorRun(pa: nat, len: nat, pad: seq<Byte>)
    requires pa < 0x1_0000_0000_0000_0000 && len < 0x1_0000_0000 && |pad| == 4
    ensures RunOf(Descriptor(pa, len, pad)) == Run(pa, len)
  {
    var (b, lo, hi) := (Descriptor(pa, len, pad), pa % 0x1_0000_0000, pa / 0x1_0000_0000);
    assert b[..8] == Bytes4(lo) + Bytes4(hi) && b[8..12] == Bytes4(len);
    var e := b[..8];
    assert e[..4] == Bytes4(lo) && e[4..] == Bytes4(hi);
    Eight(e);
    Bytes4Is(lo);
    Bytes4Is(hi);
    Bytes4Is(len);
  }

  /** The descriptor at an address, as memory then is, and its transfer. */
  function TransferOne(ram: seq<Byte>, disk: seq<Byte>, offset: nat, at: nat, write: bool): (r: (Outcome, nat))
    ensures |r.0.ram| == |ram| && |r.0.disk| == |disk|
  {
    if at + DESCRIPTOR > |ram| then (Outcome(ram, disk, Error), 0)
    else
      var d := RunOf(ram[at..at + DESCRIPTOR]);
      if d.len == 0 || d.len > MAX_SEGMENT then (Outcome(ram, disk, Invalid), 0)
      else (Transfer(ram, disk, offset, d.pa, d.len, write), d.len)
  }

  /** Which descriptors are refused before anything moves: one that is not all there, and one for no
      bytes or for more than a megabyte. */
  lemma Descriptors(ram: seq<Byte>, disk: seq<Byte>, offset: nat, at: nat, write: bool)
    ensures at + 16 > |ram| ==> TransferOne(ram, disk, offset, at, write) == (Outcome(ram, disk, Error), 0)
    ensures at + 16 <= |ram| ==>
              var d := RunOf(ram[at..at + 16]);
              TransferOne(ram, disk, offset, at, write)
              == if 1 <= d.len <= 0x10_0000 then (Transfer(ram, disk, offset, d.pa, d.len, write), d.len)
                 else (Outcome(ram, disk, Invalid), 0)
  {
  }

  function TransferAll(ram: seq<Byte>, disk: seq<Byte>, offset: nat, list: nat, count: nat, write: bool): (r: Outcome)
    ensures |r.ram| == |ram| && |r.disk| == |disk|
    decreases count
  {
    if count == 0 then Outcome(ram, disk, Ok)
    else
      var (r, len) := TransferOne(ram, disk, offset, list, write);
      if r.rc != Ok then r else TransferAll(r.ram, r.disk, offset + len, list + DESCRIPTOR, count - 1, write)
  }

  /** Taking count descriptors from here on comes to the outcome all. */
  ghost predicate Leads(ram: seq<Byte>, disk: seq<Byte>, offset: nat, list: nat, count: nat, write: bool, all: Outcome)
    decreases count
  {
    if count == 0 then all == Outcome(ram, disk, Ok)
    else
      var (r, len) := TransferOne(ram, disk, offset, list, write);
      if r.rc != Ok then all == r else Leads(r.ram, r.disk, offset + len, list + DESCRIPTOR, count - 1, write, all)
  }

  lemma {:induction false} LeadsAll(ram: seq<Byte>, disk: seq<Byte>, offset: nat, list: nat, count: nat, write: bool)
    ensures Leads(ram, disk, offset, list, count, write, TransferAll(ram, disk, offset, list, count, write))
    decreases count
  {
    if count == 0 {
    } else {
      var (r, len) := TransferOne(ram, disk, offset, list, write);
      if r.rc == Ok {
        LeadsAll(r.ram, r.disk, offset + len, list + DESCRIPTOR, count - 1, write);
      }
    }
  }

  lemma LeadsEnd(ram: seq<Byte>, disk: seq<Byte>, offset: nat, list: nat, write: bool, all: Outcome)
    requires Leads(ram, disk, offset, list, 0, write, all)
    ensures all == Outcome(ram, disk, Ok)
  {
  }

  lemma LeadsOn(ram: seq<Byte>, disk: seq<Byte>, offset: nat, list: nat, count: nat, write: bool, all: Outcome,
                r: Outcome, len: nat)
    requires count > 0 && Leads(ram, disk, offset, list, count, write, all)
             && (r, len) == TransferOne(ram, disk, offset, list, write)
    ensures r.rc != Ok ==> r == all
    ensures r.rc == Ok ==> Leads(r.ram, r.disk, offset + len, list + DESCRIPTOR, count - 1, write, all)
  {
  }

  lemma PageBounds(blocks: seq<Block>, host: seq<seq<Byte>>, pa: nat)
    requires Backs(blocks, host)
    ensures |Flatten(host)| == End(blocks) * PAGE && (pa < |Flatten(host)| <==> Scan(blocks, pa / PAGE) != Nowhere)
  {
    FlattenLength(blocks, host, |blocks|);
    assert host[..|blocks|] == host && blocks[..|blocks|] == blocks;
    Covered(blocks, pa / PAGE);
  }

  lemma Located(blocks: seq<Block>, host: seq<seq<Byte>>, pa: nat, n: nat, at: Place)
    requires Backs(blocks, host) && at == Scan(blocks, pa / PAGE) && at.Place? && n <= PAGE - pa % PAGE
    ensures at.block < |host| && at.page * PAGE + pa % PAGE + n <= |host[at.block]|
    ensures blocks[at.block].base * PAGE + (at.page * PAGE + pa % PAGE) == pa
  {
    Covered(blocks, pa / PAGE);
    var b := blocks[at.block];
    assert at.page + 1 <= b.pages;
    assert at.page * PAGE + PAGE <= b.pages * PAGE;
    assert (b.base + at.page) * PAGE == pa / PAGE * PAGE;
  }
}
