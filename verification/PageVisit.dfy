/** The order in which the four nested loops of `map_memory_single` visit pages, and exactly
    when that order is the contiguous one the caller asks for. */
module PageVisit {
  import opened PageWalk

  const PAGES_PER_GIB := 0x4_0000
  const PAGES_PER_512_GIB := 0x800_0000

  /** `get_index` on a page number. */
  function Index(page: nat, level: nat): nat
    requires level <= 3
    ensures Index(page, level) < 512
  {
    Up(4, page, level + 1) % 512
  }

  /** `get_start_idx`: the start index of a loop looks at the loop index one level up only. */
  function StartIndex(start: nat, parentIdx: nat, level: nat): nat
    requires level <= 3
    ensures StartIndex(start, parentIdx, level) < 512
  {
    if parentIdx != 0 then 0 else Index(start, level)
  }

  /** The first page below `slot` of `level` that the loops visit; `top` says whether the
      loop over the parent table is at its first iteration. */
  function First(start: nat, level: nat, slot: nat, top: bool): nat
    requires level <= 4
    decreases 4 - level
  {
    if level == 4 then slot
    else First(start, level + 1, slot * 512 + if top then Index(start, level) else 0, true)
  }

  /** The last page below `slot` of `level`. */
  function Last(level: nat, slot: nat): nat
    requires level <= 4
    decreases 4 - level
  {
    if level == 4 then slot else Last(level + 1, slot * 512 + 511)
  }

  /** The page visited after page `p` by loops that started at page `start`.  A loop nest
      that enters a new 1 GiB region resumes at the last-level index of the start page, and
      one that enters a new 512 GiB region also at its third-level index. */
  function Next(start: nat, p: nat): nat {
    var n := p + 1;
    if n % PAGES_PER_GIB != 0 then n
    else n + start % 512 + if n % PAGES_PER_512_GIB != 0 then 0 else start / 512 % 512 * 512
  }

  /** The k-th page visited. */
  function Nth(start: nat, k: nat): nat {
    if k == 0 then start else Next(start, Nth(start, k - 1))
  }

  lemma IndexByDivision(page: nat)
    requires page < PAGE_COUNT
    ensures Index(page, 0) == page / PAGES_PER_512_GIB
    ensures Index(page, 1) == page / PAGES_PER_GIB % 512
    ensures Index(page, 2) == page / 512 % 512
    ensures Index(page, 3) == page % 512
  {
    var a := page / 512;
    var b := a / 512;
    var c := b / 512;
    assert Up(4, page, 3) == a;
    assert Up(4, page, 2) == b;
    assert Up(4, page, 1) == c;
  }

  /** The loops start at the requested page. */
  lemma FirstIsStart(start: nat)
    requires start < PAGE_COUNT
    ensures First(start, 0, 0, true) == start
  {
    hide Index;
    IndexByDivision(start);
    Digits(start);
    assert First(start, 3, start / PAGES_PER_512_GIB * PAGES_PER_GIB + start / PAGES_PER_GIB % 512 * 512
                           + start / 512 % 512, true) == start;
  }

  lemma Digits(n: nat)
    ensures n == ((n / PAGES_PER_512_GIB * 512 + n / PAGES_PER_GIB % 512) * 512 + n / 512 % 512) * 512 + n % 512
  {
    var a := n / 512;
    var b := a / 512;
    assert n / PAGES_PER_GIB == b && n / PAGES_PER_512_GIB == b / 512;
  }

  lemma {:induction false} FirstBelow(start: nat, level: nat, slot: nat, top: bool)
    requires level <= 4
    ensures Up(4, First(start, level, slot, top), level) == slot
    decreases 4 - level
  {
    if level < 4 {
      var child := slot * 512 + if top then Index(start, level) else 0;
      FirstBelow(start, level + 1, child, true);
      UpStep(4, First(start, level, slot, top), level + 1);
    }
  }

  lemma LastBelow(level: nat, slot: nat)
    requires 1 <= level <= 4
    ensures level == 4 ==> Last(level, slot) + 1 == slot + 1
    ensures level == 3 ==> Last(level, slot) + 1 == (slot + 1) * 512
    ensures level == 2 ==> Last(level, slot) + 1 == (slot + 1) * PAGES_PER_GIB
    ensures level == 1 ==> Last(level, slot) + 1 == (slot + 1) * PAGES_PER_512_GIB
  {
  }

  /** When a table entry is done, the loops go on at the first page of the next entry. */
  lemma NextSlot(start: nat, level: nat, slot: nat)
    requires start < PAGE_COUNT && 1 <= level <= 4 && (slot + 1) % 512 != 0
    ensures Next(start, Last(level, slot)) == First(start, level, slot + 1, false)
  {
    hide Last, Index, First;
    IndexByDivision(start);
    LastBelow(level, slot);
    FirstUnfold(start, level, slot + 1);
    Scaled(slot + 1);
  }

  /** Which multiples of 1 GiB and of 512 GiB the first page of slot `n` of a level is. */
  lemma Scaled(n: nat)
    ensures n % 512 != 0 ==> n % PAGES_PER_GIB != 0
    ensures n * 512 % PAGES_PER_GIB == n % 512 * 512
    ensures n * PAGES_PER_GIB % PAGES_PER_GIB == 0 && n * PAGES_PER_GIB % PAGES_PER_512_GIB == n % 512 * PAGES_PER_GIB
    ensures n * PAGES_PER_512_GIB % PAGES_PER_GIB == 0 && n * PAGES_PER_512_GIB % PAGES_PER_512_GIB == 0
  {
    var a, b := n / 512, n % 512;
    ModIs(n * 512, PAGES_PER_GIB, a, b * 512);
    ModIs(n * PAGES_PER_GIB, PAGES_PER_512_GIB, a, b * PAGES_PER_GIB);
    ModIs(n * PAGES_PER_GIB, PAGES_PER_GIB, n, 0);
    ModIs(n * PAGES_PER_512_GIB, PAGES_PER_GIB, n * 512, 0);
    ModIs(n * PAGES_PER_512_GIB, PAGES_PER_512_GIB, n, 0);
    ModIs(n, 512, n / PAGES_PER_GIB * 512 + n % PAGES_PER_GIB / 512, n % PAGES_PER_GIB % 512);
  }

  lemma ModIs(x: nat, unit: nat, k: nat, r: nat)
    requires unit > 0 && x == k * unit + r && r < unit
    ensures x % unit == r
  {
    var q, m := x / unit, x % unit;
    assert x == q * unit + m;
    if q < k {
      MulAtLeast(q, k, unit);
    } else if k < q {
      MulAtLeast(k, q, unit);
    }
  }

  lemma {:induction false} MulAtLeast(a: nat, b: nat, unit: nat)
    requires a < b
    ensures a * unit + unit <= b * unit
    decreases b - a
  {
    MulNext(a, unit);
    if a + 1 < b {
      MulAtLeast(a + 1, b, unit);
    }
  }

  lemma MulNext(a: nat, unit: nat)
    ensures (a + 1) * unit == a * unit + unit
  {
  }

  lemma FirstUnfold(start: nat, level: nat, slot: nat)
    requires 1 <= level <= 4
    ensures First(start, 4, slot, false) == slot
    ensures First(start, 3, slot, false) == slot * 512
    ensures First(start, 2, slot, false) == slot * PAGES_PER_GIB + Index(start, 3)
    ensures First(start, 1, slot, false) == slot * PAGES_PER_512_GIB + Index(start, 2) * 512 + Index(start, 3)
  {
    assert First(start, 3, slot * 512, true) == slot * PAGES_PER_GIB + Index(start, 3);
    assert First(start, 3, slot * PAGES_PER_GIB + Index(start, 2), true)
           == (slot * PAGES_PER_GIB + Index(start, 2)) * 512 + Index(start, 3);
  }

  lemma {:induction false} NthIncreases(start: nat, i: nat, j: nat)
    requires i < j
    ensures Nth(start, i) < Nth(start, j)
    decreases j
  {
    if i < j - 1 { NthIncreases(start, i, j - 1); }
  }

  /** The caller-visible condition under which the visited pages are contiguous: the range
      stays inside one 1 GiB region or starts at a 2 MiB boundary, and it stays inside one
      512 GiB region or its third-level start index is zero. */
  predicate NoBadCrossing(start: nat, count: nat)
    requires count > 0
  {
    var last := start + count - 1;
    && (start % 512 == 0 || start / PAGES_PER_GIB == last / PAGES_PER_GIB)
    && (start / 512 % 512 == 0 || start / PAGES_PER_512_GIB == last / PAGES_PER_512_GIB)
  }

  ghost predicate Contiguous(start: nat, count: nat) {
    forall k | 0 <= k < count :: Nth(start, k) == start + k
  }

  /** The loops visit `start, start + 1, ...` if and only if there is no bad crossing. */
  lemma ContiguousExactly(start: nat, count: nat)
    requires count > 0
    ensures Contiguous(start, count) <==> NoBadCrossing(start, count)
  {
    if NoBadCrossing(start, count) {
      forall k | 0 <= k < count ensures Nth(start, k) == start + k {
        ContiguousUpTo(start, count, k);
      }
    } else if start % 512 != 0 && start / PAGES_PER_GIB != (start + count - 1) / PAGES_PER_GIB {
      Skips(start, count, (start / PAGES_PER_GIB + 1) * PAGES_PER_GIB - start, start / PAGES_PER_GIB + 1);
    } else {
      var h := start / PAGES_PER_512_GIB + 1;
      Scaled(h);
      Skips(start, count, h * PAGES_PER_512_GIB - start, h * 512);
    }
  }

  /** The loops do not reach the first page of 1 GiB region `g` in order, if they resume at a start
      index that is not zero. */
  lemma Skips(start: nat, count: nat, k: int, g: nat)
    requires start + k == g * PAGES_PER_GIB && 0 < k < count
    requires start % 512 != 0 || (start / 512 % 512 != 0 && (start + k) % PAGES_PER_512_GIB == 0)
    ensures !Contiguous(start, count)
  {
    Scaled(g);
    assert Nth(start, k) == Next(start, Nth(start, k - 1));
  }

  lemma {:induction false} ContiguousUpTo(start: nat, count: nat, k: nat)
    requires k < count && NoBadCrossing(start, count)
    ensures Nth(start, k) == start + k
    decreases k
  {
    if k > 0 {
      ContiguousUpTo(start, count, k - 1);
      NoSkip(start, count, k);
    }
  }

  lemma NoSkip(start: nat, count: nat, k: nat)
    requires 0 < k < count && NoBadCrossing(start, count)
    ensures Next(start, start + k - 1) == start + k
  {
    var n := start + k;
    if n % PAGES_PER_GIB == 0 {
      assert start / PAGES_PER_GIB < n / PAGES_PER_GIB <= (start + count - 1) / PAGES_PER_GIB;
      if n % PAGES_PER_512_GIB == 0 {
        assert start / PAGES_PER_512_GIB < n / PAGES_PER_512_GIB;
        assert n / PAGES_PER_512_GIB <= (start + count - 1) / PAGES_PER_512_GIB;
      }
    }
  }

  /** A range that crosses into the next 1 GiB region from the middle of a table is not
      mapped contiguously: after the crossing the loops skip as many pages as the start page
      lies behind its 2 MiB boundary. */
  lemma CrossingSkipsPages()
    ensures !Contiguous(PAGES_PER_GIB - 1, 2)
    ensures Nth(PAGES_PER_GIB - 1, 1) == PAGES_PER_GIB + 511
  {
    assert Nth(PAGES_PER_GIB - 1, 1) == Next(PAGES_PER_GIB - 1, PAGES_PER_GIB - 1);
    ContiguousExactly(PAGES_PER_GIB - 1, 2);
  }

  /** First page of the Linux kernel image range 0xFFFFFFFF80000000..0xFFFFFFFFC0000000. */
  const KASLR_START: nat := 0xF_FFF8_0000
  const KASLR_END: nat := 0xF_FFFC_0000

  /** Every range inside the kernel image range is visited contiguously. */
  lemma KernelRangeIsContiguous(start: nat, count: nat)
    requires count > 0 && KASLR_START <= start && start + count <= KASLR_END
    ensures Contiguous(start, count)
  {
    assert start / PAGES_PER_GIB == KASLR_START / PAGES_PER_GIB;
    assert (start + count - 1) / PAGES_PER_GIB == KASLR_START / PAGES_PER_GIB;
    ContiguousExactly(start, count);
  }
}
