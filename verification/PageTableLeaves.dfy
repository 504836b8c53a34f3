/** What the iterator yields, in terms of the reference walk. */
module PageTableLeaves {
  import opened PageTableEntry
  import opened PageWalk
  import opened PageVisit
  import opened PageTableIterator

  /** The first page below a slot. */
  function Low(level: nat, slot: nat): nat
    requires level <= 4
    decreases 4 - level
  {
    if level == 4 then slot else Low(level + 1, slot * 512)
  }

  lemma {:induction false} LowNext(level: nat, slot: nat)
    requires level <= 4
    ensures Low(level, slot + 1) == Low(level, slot) + Span(level)
    ensures Low(level, slot) == slot * Span(level)
    decreases 4 - level
  {
    if level < 4 {
      LowNext(level + 1, slot * 512);
      LowNext(level + 1, (slot + 1) * 512);
    }
  }

  lemma {:induction false} LowMonotone(level: nat, a: nat, b: nat)
    requires level <= 4 && a <= b
    ensures Low(level, a) <= Low(level, b)
    decreases 4 - level
  {
    if level < 4 { LowMonotone(level + 1, a * 512, b * 512); }
  }

  /** A page lies below a slot exactly when it lies between the slot's first page and that of
      the next slot. */
  lemma {:induction false} BelowIsBetween(level: nat, slot: nat, q: nat)
    requires level <= 4
    ensures Up(4, q, level) == slot <==> Low(level, slot) <= q < Low(level, slot + 1)
    decreases 4 - level
  {
    if level < 4 {
      var y := Up(4, q, level + 1);
      UpStep(4, q, level + 1);
      BelowIsBetween(level + 1, y, q);
      if y / 512 == slot {
        LowMonotone(level + 1, slot * 512, y);
        LowMonotone(level + 1, y + 1, (slot + 1) * 512);
      } else if y < slot * 512 {
        LowMonotone(level + 1, y + 1, slot * 512);
      } else {
        LowMonotone(level + 1, (slot + 1) * 512, y);
      }
    }
  }

  /** The canonical virtual address of a page. */
  function Canonical(page: nat): nat {
    page * 4096 + if page < PAGE_COUNT / 2 then 0 else 0xFFFF_0000_0000_0000
  }

  function PageOf(item: Item): nat { item.virt / 4096 % PAGE_COUNT }

  lemma SignExtendStep(low: nat, d: nat)
    requires low + d < PAGE_COUNT && (low == 0 || (low < PAGE_COUNT / 2 <==> low + d < PAGE_COUNT / 2))
    ensures SignExtend(Canonical(low) + 4096 * d) == Canonical(low + d)
    ensures Canonical(low + d) / 4096 % PAGE_COUNT == low + d
  {
  }

  /** A slot below the root lies in one half of the address space. */
  lemma SameHalf(level: nat, slot: nat, d: nat)
    requires level <= 3 && slot < Slots(level) && d < Span(level)
    ensures Low(level, slot) + d < PAGE_COUNT
    ensures level > 0 ==> (Low(level, slot) < PAGE_COUNT / 2 <==> Low(level, slot) + d < PAGE_COUNT / 2)
    ensures level == 0 ==> Low(level, slot) == 0
  {
    LevelSizes(level, slot);
    hide Low, Slots, Span;
    if slot < Slots(level) / 2 {
      assert (slot + 1) * Span(level) <= Slots(level) / 2 * Span(level);
    } else {
      assert Slots(level) / 2 * Span(level) <= slot * Span(level);
    }
    assert (slot + 1) * Span(level) <= Slots(level) * Span(level);
  }

  lemma LevelSizes(level: nat, slot: nat)
    requires level <= 3 && slot < Slots(level)
    ensures Low(level, slot) == slot * Span(level) && Slots(level) * Span(level) == PAGE_COUNT
    ensures level > 0 ==> Slots(level) / 2 * Span(level) == PAGE_COUNT / 2
  {
    if level == 0 {
      assert Slots(0) == 1 && Span(0) == PAGE_COUNT;
    } else if level == 1 {
      assert Slots(1) == 512 && Span(1) == PAGES_PER_512_GIB;
      assert Low(1, slot) == slot * PAGES_PER_512_GIB;
    } else if level == 2 {
      assert Slots(2) == PAGES_PER_GIB && Span(2) == PAGES_PER_GIB;
      assert Low(2, slot) == slot * PAGES_PER_GIB;
    } else {
      assert Slots(3) == PAGES_PER_512_GIB && Span(3) == 512;
      assert Low(3, slot) == slot * 512;
    }
  }

  lemma {:induction false} LowChild(level: nat, slot: nat, i: nat)
    requires level <= 4
    ensures Low(level, slot + i) == Low(level, slot) + i * Span(level)
    decreases i
  {
    if i > 0 {
      LowChild(level, slot, i - 1);
      LowNext(level, slot + i - 1);
      assert i * Span(level) == (i - 1) * Span(level) + Span(level);
    }
  }

  /** The addresses the iterator computes are the canonical addresses of its slots. */
  lemma EntryVirtCanonical(level: nat, slot: nat, i: nat)
    requires level <= 3 && slot < Slots(level) && i < 512
    ensures var p := Low(level + 1, slot * 512 + i);
            && p < PAGE_COUNT
            && EntryVirt(Canonical(Low(level, slot)), level, i) == Canonical(p)
            && Canonical(p) / 4096 % PAGE_COUNT == p
  {
    hide Slots, SignExtend, Canonical, Low, Span, EntryVirt;
    var d := ChildOffset(level, i);
    LowChild(level + 1, slot * 512, i);
    LowUnfold(level, slot);
    SameHalf(level, slot, d);
    SignExtendStep(Low(level, slot), d);
    EntryVirtIs(Canonical(Low(level, slot)), level, i, d);
  }

  /** Entry `i` of a table lies inside the span of the table. */
  lemma ChildOffset(level: nat, i: nat) returns (d: nat)
    requires level <= 3 && i < 512
    ensures d == i * Span(level + 1) < Span(level)
  {
    d := i * Span(level + 1);
    LowUnfold(level, 0);
    SpanPositive(level + 1);
    MulAtLeast(i, 512, Span(level + 1));
  }

  lemma EntryVirtIs(virt: nat, level: nat, i: nat, d: nat)
    requires level <= 3 && d == i * Span(level + 1)
    ensures EntryVirt(virt, level, i) == SignExtend(virt + 4096 * d)
  {
    hide SignExtend, Span;
    assert i * (4096 * Span(level + 1)) == 4096 * d;
  }

  lemma LowUnfold(level: nat, slot: nat)
    requires level <= 3
    ensures Low(level, slot) == Low(level + 1, slot * 512) && Span(level) == 512 * Span(level + 1)
  {
  }

  lemma SpanPositive(level: nat)
    requires level <= 4
    ensures Span(level) > 0
    decreases 4 - level
  {
    if level < 4 { SpanPositive(level + 1); }
  }

  // ----- specification of a list of items -----

  /** The item is a leaf of the walk, with its canonical address, and meets pages `a..b`. */
  ghost predicate Good(m: Memory, root: nat, a: nat, b: nat, item: Item) {
    var p := PageOf(item);
    && item.level <= 3 && item.virt == Canonical(p)
    && Walk(m, root, 4, p) == Leaf(item.level, item.entry)
    && p == Low(item.level + 1, Up(4, p, item.level + 1))
    && a < p + Span(item.level + 1) && p <= b
  }

  /** The item maps page `q`. */
  ghost predicate Covers(item: Item, q: nat) {
    item.level <= 3 && PageOf(item) <= q < PageOf(item) + Span(item.level + 1)
  }

  ghost predicate Found(m: Memory, root: nat, items: seq<Item>, q: nat) {
    exists j :: 0 <= j < |items| && Covers(items[j], q)
                && Walk(m, root, 4, q) == Leaf(items[j].level, items[j].entry)
  }

  /** The page behind the last one of an item. */
  ghost function End(item: Item): nat {
    if item.level <= 3 then PageOf(item) + Span(item.level + 1) else 0
  }

  ghost predicate InPlace(m: Memory, root: nat, a: nat, b: nat, item: Item, lo: nat, hi: nat) {
    Good(m, root, a, b, item) && lo <= PageOf(item) && End(item) <= hi
  }

  ghost predicate Ascending(items: seq<Item>) {
    forall i, j | 0 <= i < j < |items| :: End(items[i]) <= PageOf(items[j])
  }

  ghost predicate Complete(m: Memory, root: nat, a: nat, b: nat, items: seq<Item>, lo: nat, hi: nat) {
    forall q: nat | lo <= q < hi && a <= q <= b && Walk(m, root, 4, q).Leaf? :: Found(m, root, items, q)
  }

  /** The items are exactly the leaves with pages in `lo..hi` that meet `a..b`, in ascending
      order. */
  ghost predicate Lists(m: Memory, root: nat, a: nat, b: nat, items: seq<Item>, lo: nat, hi: nat) {
    && (forall j | 0 <= j < |items| :: InPlace(m, root, a, b, items[j], lo, hi))
    && Ascending(items) && Complete(m, root, a, b, items, lo, hi)
  }

  lemma ListsNothing(m: Memory, root: nat, a: nat, b: nat, lo: nat, hi: nat)
    requires forall q: nat | lo <= q < hi && a <= q <= b :: !Walk(m, root, 4, q).Leaf?
    ensures Lists(m, root, a, b, [], lo, hi)
  {
    hide Walk;
  }

  lemma ListsConcat(m: Memory, root: nat, a: nat, b: nat, s: seq<Item>, t: seq<Item>,
                    lo: nat, mid: nat, hi: nat)
    requires Lists(m, root, a, b, s, lo, mid) && Lists(m, root, a, b, t, mid, hi) && lo <= mid <= hi
    ensures Lists(m, root, a, b, s + t, lo, hi)
  {
    hide Walk, Good, End, PageOf, Complete;
    var u := s + t;
    forall j | 0 <= j < |u| ensures InPlace(m, root, a, b, u[j], lo, hi) {
      assert if j < |s| then u[j] == s[j] else u[j] == t[j - |s|];
    }
    forall i, j | 0 <= i < j < |u| ensures End(u[i]) <= PageOf(u[j]) {
      assert i < |s| ==> InPlace(m, root, a, b, s[i], lo, mid);
      assert j >= |s| ==> InPlace(m, root, a, b, t[j - |s|], mid, hi);
    }
    CompleteConcat(m, root, a, b, s, t, lo, mid, hi);
  }

  lemma CompleteConcat(m: Memory, root: nat, a: nat, b: nat, s: seq<Item>, t: seq<Item>,
                       lo: nat, mid: nat, hi: nat)
    requires Complete(m, root, a, b, s, lo, mid) && Complete(m, root, a, b, t, mid, hi)
    ensures Complete(m, root, a, b, s + t, lo, hi)
  {
    hide Walk, Covers;
    var u := s + t;
    forall q: nat | lo <= q < hi && a <= q <= b && Walk(m, root, 4, q).Leaf? ensures Found(m, root, u, q) {
      if q < mid {
        var j :| 0 <= j < |s| && Covers(s[j], q) && Walk(m, root, 4, q) == Leaf(s[j].level, s[j].entry);
        assert u[j] == s[j];
      } else {
        var j :| 0 <= j < |t| && Covers(t[j], q) && Walk(m, root, 4, q) == Leaf(t[j].level, t[j].entry);
        assert u[|s| + j] == t[j];
      }
    }
  }

  lemma ListsOne(m: Memory, root: nat, a: nat, b: nat, level: nat, y: nat, e: Entry)
    requires level <= 3 && y < Slots(level + 1) && Walk(m, root, level + 1, y) == Leaf(level, e)
    requires Up(4, a, level + 1) <= y <= Up(4, b, level + 1)
    ensures Lists(m, root, a, b, [Item(Canonical(Low(level + 1, y)), level, e)],
                  Low(level + 1, y), Low(level + 1, y + 1))
  {
    hide Walk, Slots, Low, Up, Span;
    var p := Low(level + 1, y);
    var item := Item(Canonical(p), level, e);
    LowNext(level + 1, y);
    SpanPositive(level + 1);
    PageOfCanonical(level, y);
    MeetsRange(a, b, level + 1, y);
    LeafBelow(m, root, level, y, e, p);
    forall q: nat | p <= q < p + Span(level + 1) ensures Found(m, root, [item], q) {
      LeafBelow(m, root, level, y, e, q);
      assert Covers([item][0], q);
    }
  }

  lemma LeafBelow(m: Memory, root: nat, level: nat, y: nat, e: Entry, q: nat)
    requires level <= 3 && Walk(m, root, level + 1, y) == Leaf(level, e)
    requires Low(level + 1, y) <= q < Low(level + 1, y + 1)
    ensures Up(4, q, level + 1) == y && Walk(m, root, 4, q) == Leaf(level, e)
  {
    BelowIsBetween(level + 1, y, q);
    WalkStops(m, root, 4, q, level + 1);
  }

  lemma PageOfCanonical(level: nat, y: nat)
    requires level <= 3 && y < Slots(level + 1)
    ensures Canonical(Low(level + 1, y)) / 4096 % PAGE_COUNT == Low(level + 1, y)
  {
    hide Canonical, Low, SignExtend;
    EntryVirtCanonical(level, y / 512, y % 512);
  }

  /** A slot between the ancestors of `a` and `b` has pages in `a..b`. */
  lemma MeetsRange(a: nat, b: nat, level: nat, y: nat)
    requires level <= 4 && Up(4, a, level) <= y <= Up(4, b, level)
    ensures a < Low(level, y + 1) && Low(level, y) <= b
  {
    BelowIsBetween(level, Up(4, a, level), a);
    BelowIsBetween(level, Up(4, b, level), b);
    LowMonotone(level, Up(4, a, level) + 1, y + 1);
    LowMonotone(level, y, Up(4, b, level));
  }

  /** Every table on the path of a page of `a..b` is backed. */
  ghost predicate Backed(m: Memory, root: nat, a: nat, b: nat) {
    forall l: nat, x: nat | l <= 3 && Up(4, a, l) <= x <= Up(4, b, l) && Walk(m, root, l, x).At? ::
      Walk(m, root, l, x).table in m
  }

  /** The bounds of an iterator over the table behind slot `x`: the bound of the whole range if
      the slot lies on the path of its first page, and no bound if it lies behind. */
  ghost predicate LowerBound(start0: nat, l: nat, x: nat, start: nat) {
    var a := start0 / 4096 % PAGE_COUNT;
    (start == start0 && Up(4, a, l) == x) || (start == 0 && Up(4, a, l) < x)
  }

  ghost predicate UpperBound(end0: nat, l: nat, x: nat, end: nat) {
    var b := end0 / 4096 % PAGE_COUNT;
    (end == end0 && Up(4, b, l) == x) || (end == WORD_MAX && Up(4, b, l) > x)
  }

  lemma DivIs(x: nat, k: nat, r: nat)
    requires x == k * 512 + r
    ensures x / 512 == k + r / 512 && x % 512 == r % 512
  {
  }

  lemma IndexIgnoresHighBits(page: nat, level: nat)
    requires level <= 3
    ensures Index(page, level) == Index(page % PAGE_COUNT, level)
  {
    var q := page % PAGE_COUNT;
    var k := page / PAGE_COUNT;
    assert page == k * PAGE_COUNT + q;
    DivIs(page, k * PAGES_PER_512_GIB, q);
    DivIs(page / 512, k * PAGES_PER_GIB, q / 512);
    DivIs(page / 512 / 512, k * 512, q / 512 / 512);
    DivIs(page / 512 / 512 / 512, k, q / 512 / 512 / 512);
    assert Up(4, page, 3) == page / 512 && Up(4, q, 3) == q / 512;
    assert Up(4, page, 2) == page / 512 / 512 && Up(4, q, 2) == q / 512 / 512;
    assert Up(4, page, 1) == page / 512 / 512 / 512 && Up(4, q, 1) == q / 512 / 512 / 512;
  }

  /** The loop bounds of an iterator admit exactly the slots that meet the range. */
  lemma BoundsAdmit(start0: nat, end0: nat, l: nat, x: nat, start: nat, end: nat, i: nat)
    requires l <= 3 && i < 512 && LowerBound(start0, l, x, start) && UpperBound(end0, l, x, end)
    ensures var a, b := start0 / 4096 % PAGE_COUNT, end0 / 4096 % PAGE_COUNT;
            && (IndexOf(start, l) <= i <==> Up(4, a, l + 1) <= x * 512 + i)
            && (i <= IndexOf(end, l) <==> x * 512 + i <= Up(4, b, l + 1))
  {
    hide Up;
    var a, b := start0 / 4096 % PAGE_COUNT, end0 / 4096 % PAGE_COUNT;
    IndexIgnoresHighBits(start0 / 4096, l);
    IndexIgnoresHighBits(end0 / 4096, l);
    UpStep(4, a, l + 1);
    UpStep(4, b, l + 1);
    IndexExtremes(l);
  }

  lemma IndexExtremes(l: nat)
    requires l <= 3
    ensures IndexOf(0, l) == 0 && IndexOf(WORD_MAX, l) == 511
  {
    hide Index;
    IndexIgnoresHighBits(WORD_MAX / 4096, l);
    assert WORD_MAX / 4096 % PAGE_COUNT == PAGE_COUNT - 1;
    LastIndex(l);
  }

  lemma LastIndex(l: nat)
    requires l <= 3
    ensures Index(0, l) == 0 && Index(PAGE_COUNT - 1, l) == 511
  {
    hide Index;
    var p := PAGE_COUNT - 1;
    assert p / PAGES_PER_512_GIB == 511 && p / PAGES_PER_GIB == 0x3_FFFF && p / 512 == 0x7FF_FFFF && p % 512 == 511;
    IndexByDivision(p);
    IndexByDivision(0);
  }

  /** The bounds that an iterator passes to the iterator over the table behind entry `i`. */
  lemma BoundsDescend(start0: nat, end0: nat, l: nat, x: nat, start: nat, end: nat, i: nat)
    requires l <= 3 && i < 512 && LowerBound(start0, l, x, start) && UpperBound(end0, l, x, end)
    requires IndexOf(start, l) <= i <= IndexOf(end, l)
    ensures LowerBound(start0, l + 1, x * 512 + i, if i > IndexOf(start, l) then 0 else start)
    ensures UpperBound(end0, l + 1, x * 512 + i, if i < IndexOf(end, l) then WORD_MAX else end)
  {
    hide Up;
    var a, b := start0 / 4096 % PAGE_COUNT, end0 / 4096 % PAGE_COUNT;
    IndexIgnoresHighBits(start0 / 4096, l);
    IndexIgnoresHighBits(end0 / 4096, l);
    UpStep(4, a, l + 1);
    UpStep(4, b, l + 1);
    IndexExtremes(l);
  }

  /** No page of `lo..hi` that lies in `a..b` has a leaf, because the slot leads nowhere. */
  lemma ListsMissing(m: Memory, root: nat, a: nat, b: nat, level: nat, y: nat)
    requires level <= 4 && Walk(m, root, level, y) == Missing
    ensures Lists(m, root, a, b, [], Low(level, y), Low(level, y + 1))
  {
    hide Walk, Low, Up;
    forall q: nat | Low(level, y) <= q < Low(level, y + 1) ensures !Walk(m, root, 4, q).Leaf? {
      BelowIsBetween(level, y, q);
      WalkStops(m, root, 4, q, level);
    }
    ListsNothing(m, root, a, b, Low(level, y), Low(level, y + 1));
  }

  /** The iterator over the table behind slot `x`, from entry `i` on, lists the leaves of the
      rest of the table. */
  lemma {:induction false} LeavesList(m: Memory, root: nat, start0: nat, end0: nat, l: nat, x: nat,
                                      f: nat, start: nat, end: nat, i: nat)
    requires l <= 3 && x < Slots(l) && Walk(m, root, l, x) == At(f) && f in m
    requires LowerBound(start0, l, x, start) && UpperBound(end0, l, x, end)
    requires IndexOf(start, l) <= i <= 512
    requires Backed(m, root, start0 / 4096 % PAGE_COUNT, end0 / 4096 % PAGE_COUNT)
    ensures var a, b := start0 / 4096 % PAGE_COUNT, end0 / 4096 % PAGE_COUNT;
            Lists(m, root, a, b, Leaves(m, m[f], l, Canonical(Low(l, x)), start, end, i),
                  Low(l + 1, x * 512 + i), Low(l, x + 1))
    decreases 4 - l, 512 - i
  {
    hide Walk, Low, Up, Slots, Lists, Leaves, Fresh, IndexOf, Canonical, EntryVirt, Backed, LowerBound,
         UpperBound, Present, Huge;
    var a, b := start0 / 4096 % PAGE_COUNT, end0 / 4096 % PAGE_COUNT;
    var v := Canonical(Low(l, x));
    LeavesStep(m, m[f], l, v, start, end, i);
    LowUnfold(l, x + 1);
    if i > IndexOf(end, l) {
      BehindRange(m, root, start0, end0, l, x, start, end, i);
    } else {
      var y, e := x * 512 + i, m[f][i];
      var rest := Leaves(m, m[f], l, v, start, end, i + 1);
      LeavesList(m, root, start0, end0, l, x, f, start, end, i + 1);
      BoundsAdmit(start0, end0, l, x, start, end, i);
      StepDown(m, root, l, x, f, i);
      EntryVirtCanonical(l, x, i);
      SlotOrder(l, x, i);
      if !Present(e) {
        ListsMissing(m, root, a, b, l + 1, y);
        ListsConcat(m, root, a, b, [], rest, Low(l + 1, y), Low(l + 1, y + 1), Low(l, x + 1));
        assert [] + rest == rest;
      } else if IsLeaf(l, e) {
        ListsOne(m, root, a, b, l, y, e);
        ListsConcat(m, root, a, b, [Item(Canonical(Low(l + 1, y)), l, e)], rest,
                    Low(l + 1, y), Low(l + 1, y + 1), Low(l, x + 1));
      } else {
        BackedAt(m, root, a, b, l + 1, y, e.frame);
        var s1 := if i > IndexOf(start, l) then 0 else start;
        var e1 := if i < IndexOf(end, l) then WORD_MAX else end;
        BoundsDescend(start0, end0, l, x, start, end, i);
        FreshList(m, root, start0, end0, l + 1, y, e.frame, s1, e1);
        ListsConcat(m, root, a, b, Fresh(m, m[e.frame], l + 1, Canonical(Low(l + 1, y)), s1, e1), rest,
                    Low(l + 1, y), Low(l + 1, y + 1), Low(l, x + 1));
      }
    }
  }

  /** A fresh iterator over the table behind slot `x` lists all leaves below the slot. */
  lemma {:induction false} FreshList(m: Memory, root: nat, start0: nat, end0: nat, l: nat, x: nat, f: nat,
                                     start: nat, end: nat)
    requires l <= 3 && x < Slots(l) && Walk(m, root, l, x) == At(f) && f in m
    requires LowerBound(start0, l, x, start) && UpperBound(end0, l, x, end)
    requires Backed(m, root, start0 / 4096 % PAGE_COUNT, end0 / 4096 % PAGE_COUNT)
    ensures var a, b := start0 / 4096 % PAGE_COUNT, end0 / 4096 % PAGE_COUNT;
            Lists(m, root, a, b, Fresh(m, m[f], l, Canonical(Low(l, x)), start, end), Low(l, x), Low(l, x + 1))
    decreases 4 - l, 1000
  {
    hide Walk, Low, Up, Slots, Lists, Leaves, IndexOf, Canonical, Backed, LowerBound, UpperBound;
    var a, b := start0 / 4096 % PAGE_COUNT, end0 / 4096 % PAGE_COUNT;
    var i := IndexOf(start, l);
    LeavesList(m, root, start0, end0, l, x, f, start, end, i);
    BeforeRange(m, root, start0, end0, l, x, start, end);
    LowUnfold(l, x);
    LowUnfold(l, x + 1);
    LowMonotone(l + 1, x * 512, x * 512 + i);
    LowMonotone(l + 1, x * 512 + i, (x + 1) * 512);
    var items := Leaves(m, m[f], l, Canonical(Low(l, x)), start, end, i);
    ListsConcat(m, root, a, b, [], items, Low(l, x), Low(l + 1, x * 512 + i), Low(l, x + 1));
    assert [] + items == items;
  }

  lemma SlotOrder(l: nat, x: nat, i: nat)
    requires l <= 3 && x < Slots(l) && i < 512
    ensures x * 512 + i < Slots(l + 1)
    ensures Low(l + 1, x * 512 + i) <= Low(l + 1, x * 512 + i + 1) <= Low(l, x + 1)
  {
    LowUnfold(l, x + 1);
    LowMonotone(l + 1, x * 512 + i, x * 512 + i + 1);
    LowMonotone(l + 1, x * 512 + i + 1, (x + 1) * 512);
  }

  lemma BackedAt(m: Memory, root: nat, a: nat, b: nat, l: nat, x: nat, f: nat)
    requires Backed(m, root, a, b) && l <= 3 && Up(4, a, l) <= x <= Up(4, b, l)
    requires Walk(m, root, l, x) == At(f)
    ensures f in m
  {
  }

  /** Entries behind the last one admitted have no page in the range. */
  lemma BehindRange(m: Memory, root: nat, start0: nat, end0: nat, l: nat, x: nat, start: nat, end: nat, i: nat)
    requires l <= 3 && IndexOf(end, l) < i <= 512
    requires LowerBound(start0, l, x, start) && UpperBound(end0, l, x, end)
    ensures Lists(m, root, start0 / 4096 % PAGE_COUNT, end0 / 4096 % PAGE_COUNT, [],
                  Low(l + 1, x * 512 + i), Low(l, x + 1))
  {
    hide Walk, Low, Up, IndexOf, LowerBound, UpperBound, Lists;
    var a, b := start0 / 4096 % PAGE_COUNT, end0 / 4096 % PAGE_COUNT;
    LastAdmitted(end0, l, x, end);
    LowUnfold(l, x + 1);
    BelowIsBetween(l + 1, Up(4, b, l + 1), b);
    LowMonotone(l + 1, x * 512 + IndexOf(end, l) + 1, x * 512 + i);
    assert b < Low(l + 1, x * 512 + i) || Low(l, x + 1) <= Low(l + 1, x * 512 + i);
    ListsNothing(m, root, a, b, Low(l + 1, x * 512 + i), Low(l, x + 1));
  }

  lemma LastAdmitted(end0: nat, l: nat, x: nat, end: nat)
    requires l <= 3 && UpperBound(end0, l, x, end)
    ensures var b := end0 / 4096 % PAGE_COUNT;
            if Up(4, b, l) == x && end == end0 then Up(4, b, l + 1) == x * 512 + IndexOf(end, l)
            else IndexOf(end, l) == 511
  {
    hide Up;
    IndexIgnoresHighBits(end0 / 4096, l);
    UpStep(4, end0 / 4096 % PAGE_COUNT, l + 1);
    IndexExtremes(l);
  }

  lemma BeforeRange(m: Memory, root: nat, start0: nat, end0: nat, l: nat, x: nat, start: nat, end: nat)
    requires l <= 3 && LowerBound(start0, l, x, start) && UpperBound(end0, l, x, end)
    ensures Lists(m, root, start0 / 4096 % PAGE_COUNT, end0 / 4096 % PAGE_COUNT, [],
                  Low(l, x), Low(l + 1, x * 512 + IndexOf(start, l)))
  {
    hide Walk, Low, Up, IndexOf, LowerBound, UpperBound, Lists;
    var a, b, i := start0 / 4096 % PAGE_COUNT, end0 / 4096 % PAGE_COUNT, IndexOf(start, l);
    FirstAdmitted(start0, l, x, start);
    LowUnfold(l, x);
    BelowIsBetween(l + 1, Up(4, a, l + 1), a);
    assert Low(l + 1, x * 512 + i) <= a || Low(l + 1, x * 512 + i) == Low(l, x);
    ListsNothing(m, root, a, b, Low(l, x), Low(l + 1, x * 512 + i));
  }

  lemma FirstAdmitted(start0: nat, l: nat, x: nat, start: nat)
    requires l <= 3 && LowerBound(start0, l, x, start)
    ensures var a := start0 / 4096 % PAGE_COUNT;
            Up(4, a, l + 1) == x * 512 + IndexOf(start, l) || IndexOf(start, l) == 0
  {
    hide Up;
    IndexIgnoresHighBits(start0 / 4096, l);
    UpStep(4, start0 / 4096 % PAGE_COUNT, l + 1);
    IndexExtremes(l);
  }

  /** The iterator over the root table, with every table in the range backed, yields exactly the
      leaves that meet `range.start..=range.end`, in ascending order, each once, at their
      canonical addresses. */
  lemma IteratorLists(m: Memory, root: nat, start: nat, end: nat)
    requires root in m && Backed(m, root, start / 4096 % PAGE_COUNT, end / 4096 % PAGE_COUNT)
    ensures Lists(m, root, start / 4096 % PAGE_COUNT, end / 4096 % PAGE_COUNT,
                  Fresh(m, m[root], 0, 0, start, end), 0, PAGE_COUNT)
  {
    hide Backed, Lists, Leaves, Fresh;
    var a, b := start / 4096 % PAGE_COUNT, end / 4096 % PAGE_COUNT;
    SlotsOfRoot(a);
    SlotsOfRoot(b);
    FreshList(m, root, start, end, 0, 0, root, start, end);
  }

  lemma SlotsOfRoot(page: nat)
    requires page < PAGE_COUNT
    ensures Up(4, page, 0) == 0 && Low(0, 0) == 0 && Low(0, 1) == PAGE_COUNT && Slots(0) == 1
    ensures Canonical(Low(0, 0)) == 0
  {
    assert Slots(4) == PAGE_COUNT;
    UpInRange(4, page, 0);
  }
}
