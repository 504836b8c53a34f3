/** Page arithmetic. */
module PageMath {
  const PAGE_SIZE := 4096

  /** The beginning of the page that holds an address. */
  function PageStart(v: nat): nat {
    v / PAGE_SIZE * PAGE_SIZE
  }

  /** The next page boundary from an address on. */
  function PageAlign(v: nat): nat {
    (v + PAGE_SIZE - 1) / PAGE_SIZE * PAGE_SIZE
  }
}
