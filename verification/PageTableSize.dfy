/** How many new tables a mapping needs, against the estimate that sizes the memory for them. */
module PageTableSize {
  import opened PageMath
  import opened PageWalk
  import opened PageVisit
  import opened PageTableEditor
  import opened PageMapping

  function TableAlign(pages: nat): nat { (pages + 511) / 512 * 512 }

  /** The least number of units that hold `n` things. */
  function Ceil(n: nat, unit: nat): nat
    requires unit > 0
  {
    (n + unit - 1) / unit
  }

  const LEVEL_COUNT := 4

  function PagesPerTable(height: nat): nat
    requires height <= 4
  {
    match height
    case 0 => 1
    case 1 => 512
    case 2 => PAGES_PER_GIB
    case 3 => PAGES_PER_512_GIB
    case 4 => PAGE_COUNT
  }

  /** Tables of the given height or below that hold `pages` well-packed pages. */
  function PackedTables(pages: nat, height: nat): nat
    requires height <= 4
  {
    if height == 0 then 0
    else PackedTables(pages, height - 1) + Ceil(pages, PagesPerTable(height))
  }

  lemma CeilCeil(pages: nat, height: nat)
    requires height < 4
    ensures Ceil(Ceil(pages, PagesPerTable(height)), 512) == Ceil(pages, PagesPerTable(height + 1))
  {
  }

  /** `estimate_page_table_size`: room for the tables of all four levels, densely packed. */
  method EstimatePageTableSize(size: nat) returns (bytes: nat)
    ensures bytes == PAGE_SIZE * PackedTables(Ceil(size, PAGE_SIZE), LEVEL_COUNT)
  {
    var pages := PageAlign(size) / PAGE_SIZE;
    var tables, total := pages, 0;
    for i := 0 to LEVEL_COUNT
      invariant tables == Ceil(pages, PagesPerTable(i)) && total == PackedTables(pages, i)
    {
      CeilCeil(pages, i);
      tables := TableAlign(tables) / 512;
      total := total + tables;
    }
    bytes := total * PAGE_SIZE;
  }

  // ----- counting the tables on the paths of a range -----

  /** Tables of `level` on the paths of the pages `first..last`. */
  function TablesAt(first: nat, last: nat, level: nat): int {
    Up(4, last, level) - Up(4, first, level) + 1
  }

  /** Tables below the root on the paths of the pages `first..last`. */
  function Needed(first: nat, last: nat): int {
    TablesAt(first, last, 1) + TablesAt(first, last, 2) + TablesAt(first, last, 3)
  }

  /** Numbers the table slots of a range from 0 on. */
  function Code(first: nat, last: nat, slot: (nat, nat)): int {
    var x := slot.1 - Up(4, first, slot.0);
    if slot.0 == 1 then x
    else if slot.0 == 2 then TablesAt(first, last, 1) + x
    else TablesAt(first, last, 1) + TablesAt(first, last, 2) + x
  }

  /** The slot lies on a path of the range. */
  predicate InRange(first: nat, last: nat, slot: (nat, nat)) {
    1 <= slot.0 <= 3 && Up(4, first, slot.0) <= slot.1 <= Up(4, last, slot.0)
  }

  lemma CodeInjective(first: nat, last: nat, a: (nat, nat), b: (nat, nat))
    requires InRange(first, last, a) && InRange(first, last, b)
    requires Code(first, last, a) == Code(first, last, b)
    ensures a == b
  {
  }

  lemma {:induction false} Pigeonhole(s: seq<int>, n: nat)
    requires forall i | 0 <= i < |s| :: 0 <= s[i] < n
    requires forall i, j | 0 <= i < j < |s| :: s[i] != s[j]
    ensures |s| <= n
    decreases n
  {
    assert |s| > 0 ==> 0 <= s[0] < n;
    if n > 0 {
      if i :| 0 <= i < |s| && s[i] == n - 1 {
        Pigeonhole(s[..i] + s[i + 1..], n - 1);
      } else {
        Pigeonhole(s, n - 1);
      }
    }
  }

  lemma {:induction false} CoverNeeds(s: seq<int>, n: nat)
    requires forall v | 0 <= v < n :: v in s
    ensures n <= |s|
    decreases n
  {
    if n > 0 {
      assert n - 1 in s;
      var i :| 0 <= i < |s| && s[i] == n - 1;
      var t := s[..i] + s[i + 1..];
      forall v | 0 <= v < n - 1 ensures v in t {
        assert v in s;
        var j :| 0 <= j < |s| && s[j] == v;
        assert j < i ==> t[j] == v;
        assert j > i ==> t[j - 1] == v;
      }
      CoverNeeds(t, n - 1);
    }
  }

  lemma HungInRange(m: Memory, root: nat, pages: iset<nat>, base: nat, hung: seq<(nat, nat)>,
                    first: nat, last: nat, j: nat)
    requires Hung(m, root, pages, base, hung) && j < |hung|
    requires forall q | q in pages :: first <= q <= last
    ensures InRange(first, last, hung[j])
  {
    hide Walk, Slots, Up;
    assert OnPath(pages, hung[j]);
    var q: nat :| q in pages && Up(4, q, hung[j].0) == hung[j].1;
    UpMonotone(4, first, q, hung[j].0);
    UpMonotone(4, q, last, hung[j].0);
  }

  /** An edit whose pages lie in `first..last` allocates at most the tables on the paths of
      that range. */
  lemma NewTablesAtMost(m: Memory, root: nat, pages: iset<nat>, base: nat, hung: seq<(nat, nat)>,
                        first: nat, last: nat)
    requires Hung(m, root, pages, base, hung) && first <= last
    requires forall q | q in pages :: first <= q <= last
    ensures |hung| <= Needed(first, last)
  {
    hide Walk, Slots, Up;
    var codes := seq(|hung|, j requires 0 <= j < |hung| => Code(first, last, hung[j]));
    UpMonotone(4, first, last, 1);
    UpMonotone(4, first, last, 2);
    UpMonotone(4, first, last, 3);
    forall j | 0 <= j < |hung| ensures InRange(first, last, hung[j]) {
      HungInRange(m, root, pages, base, hung, first, last, j);
    }
    forall i, j | 0 <= i < j < |codes| ensures codes[i] != codes[j] {
      assert Walk(m, root, hung[i].0, hung[i].1) == At(base + i);
      assert Walk(m, root, hung[j].0, hung[j].1) == At(base + j);
      if codes[i] == codes[j] {
        CodeInjective(first, last, hung[i], hung[j]);
      }
    }
    Pigeonhole(codes, Needed(first, last));
  }

  /** If the visited pages are exactly `first..last` and the root table had no entry for any of
      them, the edit allocates every table on their paths: the bound is attained. */
  lemma NewTablesExactly(mem: Memory, m: Memory, root: nat, pages: iset<nat>, base: nat,
                         hung: seq<(nat, nat)>, first: nat, last: nat)
    requires Hung(m, root, pages, base, hung) && Grown(mem, m, root, hung)
    requires first <= last < PAGE_COUNT
    requires forall q: nat :: q in pages <==> first <= q <= last
    requires forall q | q in pages :: Walk(m, root, 4, q).Leaf? && Walk(m, root, 4, q).level == 3
    requires forall q | q in pages :: Walk(mem, root, 1, Up(4, q, 1)) == Missing
    ensures |hung| == Needed(first, last)
  {
    hide Walk, Slots, Up, Hung, Grown;
    NewTablesAtMost(m, root, pages, base, hung, first, last);
    var codes := seq(|hung|, j requires 0 <= j < |hung| => Code(first, last, hung[j]));
    UpMonotone(4, first, last, 1);
    UpMonotone(4, first, last, 2);
    UpMonotone(4, first, last, 3);
    forall v | 0 <= v < Needed(first, last) ensures v in codes {
      var l: nat := if v < TablesAt(first, last, 1) then 1
                    else if v < TablesAt(first, last, 1) + TablesAt(first, last, 2) then 2 else 3;
      var x: nat := v + Up(4, first, l) - (if l == 1 then 0 else TablesAt(first, last, 1))
                    - (if l == 3 then TablesAt(first, last, 2) else 0);
      var q := PageIn(first, last, l, x);
      MissingTable(mem, m, root, pages, hung, q, l, x);
      var j :| 0 <= j < |hung| && hung[j] == (l, x);
      assert codes[j] == v;
    }
    CoverNeeds(codes, Needed(first, last));
  }

  /** A page of the range below a slot of the range. */
  lemma PageIn(first: nat, last: nat, l: nat, x: nat) returns (q: nat)
    requires 1 <= l <= 3 && Up(4, first, l) <= x <= Up(4, last, l) && first <= last
    ensures first <= q <= last && Up(4, q, l) == x
  {
    var a, b := first / 512, last / 512;
    if x == Up(4, first, l) {
      q := first;
    } else {
      q := if l == 3 then x * 512 else if l == 2 then x * 512 * 512 else x * 512 * 512 * 512;
      assert q / 512 == if l == 3 then x else if l == 2 then x * 512 else x * 512 * 512;
      assert q / 512 / 512 == if l == 3 then x / 512 else if l == 2 then x else x * 512;
      assert Up(4, q, 3) == q / 512;
      assert Up(4, q, 2) == q / 512 / 512;
      assert Up(4, q, 1) == q / 512 / 512 / 512;
      assert Up(4, last, 3) == b && Up(4, last, 2) == b / 512 && Up(4, last, 1) == b / 512 / 512;
    }
  }

  lemma MissingTable(mem: Memory, m: Memory, root: nat, pages: iset<nat>, hung: seq<(nat, nat)>,
                     q: nat, l: nat, x: nat)
    requires Grown(mem, m, root, hung) && q < PAGE_COUNT && 1 <= l <= 3 && x == Up(4, q, l)
    requires Walk(m, root, 4, q).Leaf? && Walk(m, root, 4, q).level == 3
    requires Walk(mem, root, 1, Up(4, q, 1)) == Missing
    ensures (l, x) in hung
  {
    hide Walk;
    LeafPath(m, root, q, l);
    SlotsOfPages();
    UpInRange(4, q, l);
    UpUp(4, q, l, 1);
    WalkStops(mem, root, l, x, 1);
  }

  lemma {:induction false} UpUp(from: nat, y: nat, mid: nat, to: nat)
    requires to <= mid <= from
    ensures Up(mid, Up(from, y, mid), to) == Up(from, y, to)
    decreases from
  {
    if from > mid { UpUp(from - 1, y / 512, mid, to); }
  }

  // ----- any pages -----

  /** A table on the path of a wanted page that is not there yet. */
  ghost predicate IsNew(mem: Memory, root: nat, pages: iset<nat>, slot: (nat, nat)) {
    OnPath(pages, slot) && !Walk(mem, root, slot.0, slot.1).At?
  }

  /** The table slots below the root that an edit of `pages` has to fill. */
  ghost function NewSlots(mem: Memory, root: nat, pages: iset<nat>): set<(nat, nat)> {
    set l: nat, x: nat | 1 <= l <= 3 && 0 <= x < Slots(l) && IsNew(mem, root, pages, (l, x)) :: (l, x)
  }

  lemma {:induction false} DistinctCount(s: seq<(nat, nat)>)
    requires forall i, j | 0 <= i < j < |s| :: s[i] != s[j]
    ensures |set x | x in s| == |s|
  {
    if s != [] {
      var n := |s| - 1;
      DistinctCount(s[..n]);
      assert s == s[..n] + [s[n]];
      assert s[n] !in s[..n];
      assert (set x | x in s) == (set x | x in s[..n]) + {s[n]};
    } else {
      assert (set x | x in s) == {};
    }
  }

  /** The slots of the new tables are pairwise different, and were not filled before. */
  lemma {:induction false} HungAreNew(mem: Memory, m: Memory, root: nat, pages: iset<nat>, base: nat,
                                      hung: seq<(nat, nat)>, j: nat)
    requires Hung(m, root, pages, base, hung) && Grown(mem, m, root, hung) && TablesUnder(mem, root, base)
    requires j < |hung|
    ensures hung[j] in NewSlots(mem, root, pages)
    ensures forall i | 0 <= i < |hung| && i != j :: hung[i] != hung[j]
  {
    hide Walk, Slots, Up, OnPath;
    var (l, x) := hung[j];
    assert Walk(m, root, l, x) == At(base + j);
    if Walk(mem, root, l, x).At? {
      assert false;
    }
    forall i | 0 <= i < |hung| && i != j ensures hung[i] != hung[j] {
      assert Walk(m, root, hung[i].0, hung[i].1) == At(base + i);
    }
  }

  /** Every missing table on the path of a mapped page has been added. */
  lemma {:induction false} NewAreHung(mem: Memory, m: Memory, root: nat, pages: iset<nat>, hung: seq<(nat, nat)>,
                                      slot: (nat, nat))
    requires Grown(mem, m, root, hung) && slot in NewSlots(mem, root, pages)
    requires forall q | q in pages :: Walk(m, root, 4, q).Leaf? && Walk(m, root, 4, q).level == 3
    ensures slot in hung
  {
    hide Walk, Slots, Up;
    assert IsNew(mem, root, pages, slot);
    var q: nat :| q in pages && Up(4, q, slot.0) == slot.1;
    LeafPath(m, root, q, slot.0);
  }

  /** An edit allocates exactly one table for every slot it has to fill. */
  lemma {:induction false} NewTablesCount(mem: Memory, m: Memory, root: nat, pages: iset<nat>, base: nat,
                                          hung: seq<(nat, nat)>)
    requires Hung(m, root, pages, base, hung) && Grown(mem, m, root, hung) && TablesUnder(mem, root, base)
    requires forall q | q in pages :: Walk(m, root, 4, q).Leaf? && Walk(m, root, 4, q).level == 3
    ensures |hung| == |NewSlots(mem, root, pages)|
  {
    hide Walk, Slots, Up, Hung, Grown, TablesUnder, NewSlots;
    forall j | 0 <= j < |hung|
      ensures hung[j] in NewSlots(mem, root, pages) && forall i | 0 <= i < |hung| && i != j :: hung[i] != hung[j]
    {
      HungAreNew(mem, m, root, pages, base, hung, j);
    }
    forall slot | slot in NewSlots(mem, root, pages) ensures slot in hung {
      NewAreHung(mem, m, root, pages, hung, slot);
    }
    DistinctCount(hung);
    assert (set x | x in hung) == NewSlots(mem, root, pages);
  }

  /** Every new table is in guest memory, since a mapped page lies below it. */
  lemma {:induction false} NewTableThere(m: Memory, root: nat, pages: iset<nat>, base: nat, hung: seq<(nat, nat)>,
                                         j: nat)
    requires Hung(m, root, pages, base, hung) && j < |hung|
    requires forall q | q in pages :: Walk(m, root, 4, q).Leaf? && Walk(m, root, 4, q).level == 3
    ensures base + j in m
  {
    hide Slots, Walk, Up;
    var (l, x) := hung[j];
    assert OnPath(pages, (l, x));
    var q: nat :| q in pages && Up(4, q, l) == x;
    if base + j !in m {
      Unbacks(m, root, q, l);
      assert false;
    }
  }

  /** A walk that meets a table without memory goes no further. */
  lemma Unbacks(m: Memory, root: nat, q: nat, l: nat)
    requires l <= 3 && Walk(m, root, l, Up(4, q, l)).At? && Walk(m, root, l, Up(4, q, l)).table !in m
    ensures Walk(m, root, 4, q) == Unbacked
  {
    hide Walk, Up;
    UpStep(4, q, l + 1);
    NextUnbacked(m, root, l + 1, Up(4, q, l + 1));
    WalkStops(m, root, 4, q, l + 1);
  }

  lemma NextUnbacked(m: Memory, root: nat, l: nat, y: nat)
    requires l > 0 && Walk(m, root, l - 1, y / 512).At? && Walk(m, root, l - 1, y / 512).table !in m
    ensures Walk(m, root, l, y) == Unbacked
  {
  }

  /** The first page of the kernel image range, and pages in the two 2 MiB regions behind it. */
  ghost function Scattered(): iset<nat> {
    iset{KASLR_START, KASLR_START + 512, KASLR_START + 1024}
  }

  lemma ScatteredPaths(q: nat)
    requires q in Scattered()
    ensures Up(4, q, 1) == 511 && Up(4, q, 2) == 0x3_FFFE
    ensures Up(4, q, 3) == 0x7FF_FC00 + (q - KASLR_START) / 512
  {
    UpByDivision(q);
  }

  /** Three pages in three 2 MiB regions need five tables, if nothing is mapped near them. */
  lemma ScatteredNeedFive(mem: Memory, root: nat)
    requires Walk(mem, root, 1, 511) == Missing
    ensures |NewSlots(mem, root, Scattered())| == 5
  {
    var slots := {(1, 511), (2, 0x3_FFFE), (3, 0x7FF_FC00), (3, 0x7FF_FC01), (3, 0x7FF_FC02)};
    hide Walk, Up, Slots, Scattered;
    forall slot | slot in NewSlots(mem, root, Scattered()) ensures slot in slots {
      assert OnPath(Scattered(), slot);
      var q: nat :| q in Scattered() && Up(4, q, slot.0) == slot.1;
      ScatteredPaths(q);
      ScatteredMembers(q);
    }
    forall slot | slot in slots ensures slot in NewSlots(mem, root, Scattered()) {
      var d: nat := if slot.0 == 3 then slot.1 - 0x7FF_FC00 else 0;
      var q := KASLR_START + d * 512;
      ScatteredMembers(q);
      ScatteredPaths(q);
      ScatteredIsNew(mem, root, slot, q);
    }
    assert NewSlots(mem, root, Scattered()) == slots;
  }

  lemma ScatteredMembers(q: nat)
    ensures q in Scattered() <==> q == KASLR_START || q == KASLR_START + 512 || q == KASLR_START + 1024
  {
  }

  lemma ScatteredIsNew(mem: Memory, root: nat, slot: (nat, nat), q: nat)
    requires Walk(mem, root, 1, 511) == Missing && q in Scattered() && 1 <= slot.0 <= 3 && slot.1 == Up(4, q, slot.0)
    ensures slot in NewSlots(mem, root, Scattered())
  {
    hide Walk, Scattered;
    ScatteredPaths(q);
    ScatteredMembers(q);
    SlotsOfPages();
    UpInRange(4, q, slot.0);
    UpUp(4, q, slot.0, 1);
    WalkStops(mem, root, slot.0, slot.1, 1);
    assert OnPath(Scattered(), slot);
  }

  // ----- the estimate against the need -----

  /** One if a range of `count` pages from `first` on touches one more unit than a packed range
      of the same length. */
  function Straddles(first: nat, count: nat, unit: nat): nat
    requires unit > 0
  {
    if first % unit + count > Ceil(count, unit) * unit then 1 else 0
  }

  lemma UnitCount(first: nat, count: nat, unit: nat)
    requires unit == 512 || unit == PAGES_PER_GIB || unit == PAGES_PER_512_GIB
    requires count > 0
    ensures (first + count - 1) / unit - first / unit + 1 == Ceil(count, unit) + Straddles(first, count, unit)
  {
    if unit == 512 {
    } else if unit == PAGES_PER_GIB {
    } else {
    }
  }

  lemma UpByDivision(p: nat)
    ensures Up(4, p, 3) == p / 512
    ensures Up(4, p, 2) == p / PAGES_PER_GIB
    ensures Up(4, p, 1) == p / PAGES_PER_512_GIB
  {
    assert Up(4, p, 2) == p / 512 / 512;
    assert Up(4, p, 1) == p / 512 / 512 / 512;
  }

  lemma LevelCount(first: nat, count: nat, l: nat)
    requires 1 <= l <= 3 && count > 0
    ensures var unit := PagesPerTable(4 - l);
            TablesAt(first, first + count - 1, l) == Ceil(count, unit) + Straddles(first, count, unit)
  {
    hide Ceil, Straddles, Up;
    UpByDivision(first);
    UpByDivision(first + count - 1);
    UnitCount(first, count, PagesPerTable(4 - l));
  }

  /** The estimate is an upper bound for a range if and only if the range straddles a boundary
      on at most one level; the fourth, root level leaves room for one extra table. */
  lemma EstimateSufficesExactly(first: nat, count: nat)
    requires 0 < count <= PAGE_COUNT
    ensures Needed(first, first + count - 1) <= PackedTables(count, LEVEL_COUNT) <==>
            Straddles(first, count, 512) + Straddles(first, count, PAGES_PER_GIB)
            + Straddles(first, count, PAGES_PER_512_GIB) <= 1
  {
    LevelCount(first, count, 1);
    LevelCount(first, count, 2);
    LevelCount(first, count, 3);
    assert PackedTables(count, 0) == 0;
    assert PackedTables(count, 1) == Ceil(count, 512);
    assert PackedTables(count, 2) == Ceil(count, 512) + Ceil(count, PAGES_PER_GIB);
    assert PackedTables(count, 3) == PackedTables(count, 2) + Ceil(count, PAGES_PER_512_GIB);
    assert Ceil(count, PAGE_COUNT) == 1;
  }

  /** Two pages across a 512 GiB boundary need six tables; the estimate has room for four. */
  lemma EstimateCanFail()
    ensures Needed(PAGES_PER_512_GIB - 1, PAGES_PER_512_GIB) == 6
    ensures PackedTables(2, LEVEL_COUNT) == 4
  {
    LevelCount(PAGES_PER_512_GIB - 1, 2, 1);
    LevelCount(PAGES_PER_512_GIB - 1, 2, 2);
    LevelCount(PAGES_PER_512_GIB - 1, 2, 3);
  }

  /** A range inside one 1 GiB region straddles on the lowest level at most. */
  lemma EstimateSufficesInGib(first: nat, count: nat)
    requires 0 < count && first / PAGES_PER_GIB == (first + count - 1) / PAGES_PER_GIB
    ensures Needed(first, first + count - 1) <= PackedTables(count, LEVEL_COUNT)
  {
    hide Needed, PackedTables;
    InOneGib(first, count);
    EstimateSufficesExactly(first, count);
  }

  lemma InOneGib(first: nat, count: nat)
    requires 0 < count && first / PAGES_PER_GIB == (first + count - 1) / PAGES_PER_GIB
    ensures first % PAGES_PER_GIB + count <= PAGES_PER_GIB && first % PAGES_PER_512_GIB + count <= PAGES_PER_512_GIB
  {
    var g, r := first / PAGES_PER_GIB, first % PAGES_PER_GIB;
    assert first == g * PAGES_PER_GIB + r;
    assert r + count <= PAGES_PER_GIB;
    ModIs(first, PAGES_PER_512_GIB, g / 512, g % 512 * PAGES_PER_GIB + r);
  }
}
