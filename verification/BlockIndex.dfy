/** Guest RAM as host allocations laid end to end from pseudo page zero, and the
    search that finds the one holding a page. */
module BlockIndex {

  /** `pages` pseudo pages from `base`, contiguous in host memory at `host`. */
  datatype Block = Block(host: nat, base: nat, pages: nat)

  datatype Place = Nowhere | Place(block: nat, page: nat)

  predicate Contains(b: Block, pfn: nat) {
    b.base <= pfn < b.base + b.pages
  }

  /** Where the blocks end when each begins where the last one ended. */
  function End(blocks: seq<Block>): nat {
    if blocks == [] then 0 else var b := blocks[|blocks| - 1]; b.base + b.pages
  }

  ghost predicate Tiled(blocks: seq<Block>) {
    forall i :: 0 <= i < |blocks| ==> blocks[i].pages > 0 && blocks[i].base == End(blocks[..i])
  }

  /** The reference: look at every block in turn. */
  function Scan(blocks: seq<Block>, pfn: nat): Place {
    if blocks == [] then Nowhere
    else var b := blocks[|blocks| - 1];
         if Contains(b, pfn) then Place(|blocks| - 1, pfn - b.base) else Scan(blocks[..|blocks| - 1], pfn)
  }

  lemma TiledAppend(blocks: seq<Block>, b: Block)
    requires Tiled(blocks) && b.pages > 0 && b.base == End(blocks)
    ensures Tiled(blocks + [b]) && End(blocks + [b]) == b.base + b.pages
  {
    var t := blocks + [b];
    forall i | 0 <= i < |t| ensures t[i].pages > 0 && t[i].base == End(t[..i]) {
      assert i < |blocks| ==> t[..i] == blocks[..i];
      assert i == |blocks| ==> t[..i] == blocks;
    }
  }

  /** Later blocks begin at or after the end of earlier ones. */
  lemma {:induction false} Ordered(blocks: seq<Block>, i: nat, j: nat)
    requires Tiled(blocks) && i < j < |blocks|
    ensures blocks[i].base + blocks[i].pages <= blocks[j].base
  {
    assert blocks[j].base == End(blocks[..j]);
    if i < j - 1 {
      Ordered(blocks, i, j - 1);
    }
  }

  /** A block that contains the page is the one the scan finds. */
  lemma {:induction false} ScanFinds(blocks: seq<Block>, pfn: nat, k: nat)
    requires Tiled(blocks) && k < |blocks| && Contains(blocks[k], pfn)
    ensures Scan(blocks, pfn) == Place(k, pfn - blocks[k].base)
  {
    var n := |blocks| - 1;
    if k < n {
      Ordered(blocks, k, n);
      TiledPrefix(blocks, n);
      ScanFinds(blocks[..n], pfn, k);
    }
  }

  lemma TiledPrefix(blocks: seq<Block>, n: nat)
    requires Tiled(blocks) && n <= |blocks|
    ensures Tiled(blocks[..n])
  {
    forall i | 0 <= i < n ensures blocks[..n][i].pages > 0 && blocks[..n][i].base == End(blocks[..n][..i]) {
      assert blocks[..n][..i] == blocks[..i];
    }
  }

  lemma {:induction false} ScanMisses(blocks: seq<Block>, pfn: nat)
    requires forall k :: 0 <= k < |blocks| ==> !Contains(blocks[k], pfn)
    ensures Scan(blocks, pfn) == Nowhere
  {
    if blocks == [] {
    } else {
      ScanMisses(blocks[..|blocks| - 1], pfn);
    }
  }

  /** Every page below the end is in some block: the ranges leave no gap. */
  lemma {:induction false} Covered(blocks: seq<Block>, pfn: nat)
    requires Tiled(blocks)
    ensures Scan(blocks, pfn) != Nowhere <==> pfn < End(blocks)
    ensures Scan(blocks, pfn).Place? ==>
              var (k, o) := (Scan(blocks, pfn).block, Scan(blocks, pfn).page);
              k < |blocks| && o < blocks[k].pages && blocks[k].base + o == pfn
  {
    if blocks == [] {
    } else {
      var n := |blocks| - 1;
      assert blocks[n].base == End(blocks[..n]);
      TiledPrefix(blocks, n);
      Covered(blocks[..n], pfn);
      if !Contains(blocks[n], pfn) && pfn < End(blocks[..n]) {
        assert Scan(blocks, pfn) == Scan(blocks[..n], pfn);
      }
    }
  }

  lemma NotAbove(blocks: seq<Block>, pfn: nat, mid: nat)
    requires Tiled(blocks) && mid < |blocks| && pfn < blocks[mid].base
    ensures forall k :: mid <= k < |blocks| ==> !Contains(blocks[k], pfn)
  {
    forall k | mid < k < |blocks| ensures !Contains(blocks[k], pfn) {
      Ordered(blocks, mid, k);
    }
  }

  lemma NotBelow(blocks: seq<Block>, pfn: nat, mid: nat)
    requires Tiled(blocks) && mid < |blocks| && blocks[mid].base + blocks[mid].pages <= pfn
    ensures forall k :: 0 <= k <= mid ==> !Contains(blocks[k], pfn)
  {
    forall k | 0 <= k < mid ensures !Contains(blocks[k], pfn) {
      Ordered(blocks, k, mid);
    }
  }

  /** A page that can only be in an empty range of blocks is in none. */
  ghost predicate Within(blocks: seq<Block>, pfn: nat, lo: int, hi: int) {
    forall k :: 0 <= k < |blocks| && Contains(blocks[k], pfn) ==> lo <= k <= hi
  }

  /** The loader's block table with its last-hit cache. */
  class Index {
    var blocks: seq<Block>
    var lastHit: nat

    ghost predicate Valid()
      reads this
    {
      Tiled(blocks)
    }

    constructor ()
      ensures Valid() && blocks == [] && lastHit == 0
    {
      blocks, lastHit := [], 0;
    }

    /** The cached binary search, whatever block the cache remembers. */
    method Find(pfn: nat) returns (r: Place)
      requires Valid()
      modifies this
      ensures blocks == old(blocks) && Valid()
      ensures r == Scan(blocks, pfn)
    {
      Covered(blocks, pfn);
      if pfn >= End(blocks) {
        return Nowhere;
      }
      if lastHit < |blocks| && Contains(blocks[lastHit], pfn) {
        ScanFinds(blocks, pfn, lastHit);
        return Place(lastHit, pfn - blocks[lastHit].base);
      }
      var lo, hi := 0, |blocks| - 1;
      while lo <= hi
        invariant blocks == old(blocks)
        invariant 0 <= lo <= hi + 1 <= |blocks|
        invariant Within(blocks, pfn, lo, hi)
      {
        var mid := lo + (hi - lo) / 2;
        var b := blocks[mid];
        if pfn < b.base {
          NotAbove(blocks, pfn, mid);
          hi := mid - 1;
        } else if pfn >= b.base + b.pages {
          NotBelow(blocks, pfn, mid);
          lo := mid + 1;
        } else {
          lastHit := mid;
          ScanFinds(blocks, pfn, mid);
          return Place(mid, pfn - b.base);
        }
      }
      ScanMisses(blocks, pfn);
      return Nowhere;
    }

    /** A new host allocation takes the pages after the last one. */
    method Append(host: nat, pages: nat)
      requires Valid() && pages > 0
      modifies this
      ensures Valid() && lastHit == old(lastHit)
      ensures blocks == old(blocks) + [Block(host, End(old(blocks)), pages)] && End(blocks) == End(old(blocks)) + pages
    {
      TiledAppend(blocks, Block(host, End(blocks), pages));
      blocks := blocks + [Block(host, End(blocks), pages)];
    }
  }
}
