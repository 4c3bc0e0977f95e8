/** Pages and bytes. */
module Sizes {

  const PAGE: nat := 4096
  const MIB: nat := 0x10_0000
  const GIB: nat := 0x4000_0000

  function Min(a: nat, b: nat): nat {
    if a < b then a else b
  }

  function Max(a: nat, b: nat): nat {
    if a < b then b else a
  }

  /** How many units of k it takes to hold n. */
  function CeilDiv(n: nat, k: nat): nat
    requires k > 0
  {
    (n + k - 1) / k
  }

  function CeilPages(bytes: nat): nat {
    CeilDiv(bytes, PAGE)
  }
}
