/** The reference translation: a plain recursive walk of 4-level page tables, and how an
    edit of one table entry changes it. */
module PageWalk {
  import opened PageTableEntry

  const ENTRY_COUNT := 512
  const PAGE_COUNT: nat := 0x10_0000_0000 // 2^36 pages of virtual address space

  type Table = t: seq<Entry> | |t| == ENTRY_COUNT witness seq(ENTRY_COUNT, _ => UNUSED)

  /** Guest physical memory that holds page tables, keyed by frame number. */
  type Memory = map<int, Table>

  function EmptyTable(): Table { seq(ENTRY_COUNT, _ => UNUSED) }

  /** Where a walk stands after some levels: in a table, stopped at a leaf, stopped at an
      entry that is not present, or stopped at a table that no memory backs. */
  datatype Cursor = At(table: nat) | Leaf(level: nat, entry: Entry) | Missing | Unbacked

  /** What an entry of a table of the given level leads to. */
  function Follow(level: nat, e: Entry): Cursor {
    if !Present(e) then Missing
    else if level == 3 || Huge(e) then Leaf(level, e)
    else At(e.frame)
  }

  /** The walk down to `level`.  `slot` is the prefix of the page number that selects the
      table of that level; at level 4 it is the whole page number. */
  function Walk(m: Memory, root: nat, level: nat, slot: nat): Cursor
    decreases level
  {
    if level == 0 then At(root) else
    var up := Walk(m, root, level - 1, slot / 512);
    if !up.At? then up
    else if up.table in m then Follow(level - 1, m[up.table][slot % 512])
    else Unbacked
  }

  /** The number of slots of a level. */
  function Slots(level: nat): nat
    ensures Slots(level) > 0
  {
    if level == 0 then 1 else 512 * Slots(level - 1)
  }

  /** The ancestor at level `to` of slot `y` of level `from`. */
  function Up(from: nat, y: nat, to: nat): nat
    decreases from
  {
    if from <= to then y else Up(from - 1, y / 512, to)
  }

  lemma {:induction false} UpStep(from: nat, y: nat, to: nat)
    requires 0 < to <= from
    ensures Up(from, y, to) / 512 == Up(from, y, to - 1)
    decreases from
  {
    if from > to { UpStep(from - 1, y / 512, to); }
  }

  lemma {:induction false} UpInRange(from: nat, y: nat, to: nat)
    requires to <= from && y < Slots(from)
    ensures Up(from, y, to) < Slots(to)
    decreases from
  {
    if from > to { UpInRange(from - 1, y / 512, to); }
  }

  lemma {:induction false} UpMonotone(from: nat, a: nat, b: nat, to: nat)
    requires a <= b
    ensures Up(from, a, to) <= Up(from, b, to)
    decreases from
  {
    if from > to { UpMonotone(from - 1, a / 512, b / 512, to); }
  }

  lemma {:induction false} InRangeBelow(from: nat, y: nat, to: nat)
    requires to <= from && Up(from, y, to) < Slots(to)
    ensures y < Slots(from)
    decreases from
  {
    if from > to { InRangeBelow(from - 1, y / 512, to); }
  }

  /** Once a walk has stopped, it stays where it is on every lower level. */
  lemma {:induction false} WalkStops(m: Memory, root: nat, from: nat, y: nat, to: nat)
    requires to <= from
    requires !Walk(m, root, to, Up(from, y, to)).At?
    ensures Walk(m, root, from, y) == Walk(m, root, to, Up(from, y, to))
    decreases from
  {
    if from > to { WalkStops(m, root, from - 1, y / 512, to); }
  }

  lemma {:induction false} LeafLevel(m: Memory, root: nat, l: nat, y: nat)
    requires Walk(m, root, l, y).Leaf?
    ensures Walk(m, root, l, y).level < l
    decreases l
  {
    if l > 0 && Walk(m, root, l - 1, y / 512).Leaf? { LeafLevel(m, root, l - 1, y / 512); }
  }

  /** A page with a last-level leaf has a table on every level of its path. */
  lemma LeafPath(m: Memory, root: nat, q: nat, l: nat)
    requires l <= 3 && Walk(m, root, 4, q).Leaf? && Walk(m, root, 4, q).level == 3
    ensures Walk(m, root, l, Up(4, q, l)).At?
  {
    if !Walk(m, root, l, Up(4, q, l)).At? {
      WalkStops(m, root, 4, q, l);
      LeafLevel(m, root, l, Up(4, q, l));
    }
  }

  /** What entry `i` of the table behind a slot leads to. */
  lemma StepDown(m: Memory, root: nat, l: nat, x: nat, t: nat, i: nat)
    requires Walk(m, root, l, x) == At(t) && t in m && i < 512
    ensures Walk(m, root, l + 1, x * 512 + i) == Follow(l, m[t][i])
  {
    assert (x * 512 + i) / 512 == x && (x * 512 + i) % 512 == i;
  }

  /** Table `t` is reached through slot `x0` of level `l0` and through no other slot. */
  ghost predicate Sole(m: Memory, root: nat, t: nat, l0: nat, x0: nat) {
    forall l: nat, x: nat | l <= 3 && x < Slots(l) && Walk(m, root, l, x) == At(t) ::
      l == l0 && x == x0
  }

  ghost predicate Below(from: nat, y: nat, to: nat, x: nat) {
    to <= from && Up(from, y, to) == x
  }

  /** Changing entry `i` of a table that has one path only affects the walks through it. */
  lemma {:induction false} EditElsewhere(m: Memory, root: nat, t: nat, i: nat, e: Entry,
                                         l0: nat, x0: nat, l: nat, y: nat)
    requires t in m && i < 512 && Sole(m, root, t, l0, x0)
    requires l <= 4 && y < Slots(l)
    requires !Below(l, y, l0 + 1, x0 * 512 + i)
    ensures Walk(m[t := m[t][i := e]], root, l, y) == Walk(m, root, l, y)
    decreases l
  {
    if l > 0 {
      EditElsewhere(m, root, t, i, e, l0, x0, l - 1, y / 512);
      if Walk(m, root, l - 1, y / 512) == At(t) {
        assert l - 1 == l0 && y / 512 == x0;
      }
    }
  }

  /** No walk leads to frame `f`. */
  ghost predicate Unreached(m: Memory, root: nat, f: nat) {
    forall l: nat, x: nat | l <= 3 && x < Slots(l) :: Walk(m, root, l, x) != At(f)
  }

  /** Adding a table that nothing points to changes no walk. */
  lemma {:induction false} AddUnreached(m: Memory, root: nat, f: nat, t: Table, l: nat, y: nat)
    requires Unreached(m, root, f) && l <= 4 && y < Slots(l)
    ensures Walk(m[f := t], root, l, y) == Walk(m, root, l, y)
    decreases l
  {
    if l > 0 {
      AddUnreached(m, root, f, t, l - 1, y / 512);
      assert Walk(m, root, l - 1, y / 512) != At(f);
    }
  }

  /** Hanging an empty table into an entry that was not present. */
  function Hang(m: Memory, t: nat, i: nat, f: nat): Memory
    requires t in m && i < 512
  {
    m[f := EmptyTable()][t := m[t][i := TableEntry(f)]]
  }

  lemma {:induction false} HangBelow(m: Memory, root: nat, t: nat, i: nat, f: nat,
                                     l0: nat, x0: nat, l: nat, y: nat)
    requires t in m && i < 512 && t != f && l0 < 3
    requires Walk(m, root, l0, x0) == At(t) && x0 < Slots(l0) && Sole(m, root, t, l0, x0)
    requires Unreached(m, root, f)
    requires l0 + 1 <= l <= 4 && y < Slots(l) && Up(l, y, l0 + 1) == x0 * 512 + i
    ensures Walk(Hang(m, t, i, f), root, l, y) == if l == l0 + 1 then At(f) else Missing
    decreases l
  {
    hide Sole, Unreached, Slots, Up, Walk;
    var h: Memory := Hang(m, t, i, f);
    UpOne(l, y, l0 + 1);
    if l == l0 + 1 {
      HangElsewhere(m, root, t, i, f, l0, x0, l0, x0);
      StepDown(h, root, l0, x0, t, i);
    } else {
      HangBelow(m, root, t, i, f, l0, x0, l - 1, y / 512);
      assert h[f] == EmptyTable();
      EmptyStops(h, root, l, y, f);
    }
  }

  lemma UpOne(l: nat, y: nat, to: nat)
    requires y < Slots(l)
    ensures l <= to ==> Up(l, y, to) == y
    ensures l > 0 ==> y / 512 < Slots(l - 1)
    ensures l > to ==> Up(l, y, to) == Up(l - 1, y / 512, to)
  {
  }

  /** Nothing is below an empty table. */
  lemma EmptyStops(m: Memory, root: nat, l: nat, y: nat, f: nat)
    requires l > 0 && f in m && m[f] == EmptyTable()
    requires Walk(m, root, l - 1, y / 512) == At(f) || Walk(m, root, l - 1, y / 512) == Missing
    ensures Walk(m, root, l, y) == Missing
  {
  }

  lemma HangElsewhere(m: Memory, root: nat, t: nat, i: nat, f: nat,
                      l0: nat, x0: nat, l: nat, y: nat)
    requires t in m && i < 512 && t != f
    requires Sole(m, root, t, l0, x0) && Unreached(m, root, f)
    requires l <= 4 && y < Slots(l) && !Below(l, y, l0 + 1, x0 * 512 + i)
    ensures Walk(Hang(m, t, i, f), root, l, y) == Walk(m, root, l, y)
  {
    var m1: Memory := m[f := EmptyTable()];
    forall l': nat, x: nat | l' <= 3 && x < Slots(l') && Walk(m1, root, l', x) == At(t)
      ensures l' == l0 && x == x0
    {
      AddUnreached(m, root, f, EmptyTable(), l', x);
    }
    EditElsewhere(m1, root, t, i, TableEntry(f), l0, x0, l, y);
    AddUnreached(m, root, f, EmptyTable(), l, y);
  }

  /** Hanging an empty table into an entry that was not present leads one slot to the new
      table; every other slot, and every page, leads where it led before. */
  lemma HangEffect(m: Memory, root: nat, t: nat, i: nat, f: nat, l0: nat, x0: nat, l: nat, y: nat)
    requires t in m && i < 512 && t != f && l0 < 3
    requires Walk(m, root, l0, x0) == At(t) && x0 < Slots(l0) && Sole(m, root, t, l0, x0)
    requires Unreached(m, root, f) && !Present(m[t][i]) && l <= 4 && y < Slots(l)
    ensures Walk(Hang(m, t, i, f), root, l, y) ==
            if l == l0 + 1 && y == x0 * 512 + i then At(f) else Walk(m, root, l, y)
  {
    hide Sole, Unreached, Slots, Walk;
    if Below(l, y, l0 + 1, x0 * 512 + i) {
      HangBelow(m, root, t, i, f, l0, x0, l, y);
      StepDown(m, root, l0, x0, t, i);
      WalkStops(m, root, l, y, l0 + 1);
    } else {
      HangElsewhere(m, root, t, i, f, l0, x0, l, y);
    }
  }

  /** Every table on the path of a page of `pages` is reached through that path only. */
  ghost predicate Unshared(m: Memory, root: nat, pages: iset<nat>) {
    forall q: nat, l: nat | q in pages && l <= 3 && Walk(m, root, l, Up(4, q, l)).At? ::
      Sole(m, root, Walk(m, root, l, Up(4, q, l)).table, l, Up(4, q, l))
  }

  lemma HangKeepsUnshared(m: Memory, root: nat, t: nat, i: nat, f: nat, l0: nat, x0: nat,
                          pages: iset<nat>)
    requires t in m && i < 512 && t != f && l0 < 3
    requires Walk(m, root, l0, x0) == At(t) && x0 < Slots(l0) && Sole(m, root, t, l0, x0)
    requires Unreached(m, root, f) && !Present(m[t][i])
    requires Unshared(m, root, pages) && forall q | q in pages :: q < PAGE_COUNT
    ensures Unshared(Hang(m, t, i, f), root, pages)
  {
    var h: Memory := Hang(m, t, i, f);
    assert Slots(4) == PAGE_COUNT;
    forall q: nat, l: nat, l': nat, x: nat |
      q in pages && l <= 3 && Walk(h, root, l, Up(4, q, l)).At?
      && l' <= 3 && x < Slots(l') && Walk(h, root, l', x) == Walk(h, root, l, Up(4, q, l))
      ensures l' == l && x == Up(4, q, l)
    {
      UpInRange(4, q, l);
      HangEffect(m, root, t, i, f, l0, x0, l, Up(4, q, l));
      HangEffect(m, root, t, i, f, l0, x0, l', x);
    }
  }

  /** Writing a leaf into a last-level table moves no table and changes one page. */
  lemma LeafEdit(m: Memory, root: nat, t: nat, i: nat, e: Entry, x0: nat, l: nat, y: nat)
    requires t in m && i < 512 && Present(e)
    requires Walk(m, root, 3, x0) == At(t) && x0 < Slots(3) && Sole(m, root, t, 3, x0)
    requires l <= 4 && y < Slots(l)
    ensures Walk(m[t := m[t][i := e]], root, l, y) ==
            if l == 4 && y == x0 * 512 + i then Leaf(3, e) else Walk(m, root, l, y)
  {
    if l == 4 && y == x0 * 512 + i {
      assert !Below(3, x0, 4, y);
      EditElsewhere(m, root, t, i, e, 3, x0, 3, x0);
    } else {
      EditElsewhere(m, root, t, i, e, 3, x0, l, y);
    }
  }

  lemma LeafEditKeepsUnshared(m: Memory, root: nat, t: nat, i: nat, e: Entry, x0: nat,
                              pages: iset<nat>)
    requires t in m && i < 512 && Present(e)
    requires Walk(m, root, 3, x0) == At(t) && x0 < Slots(3) && Sole(m, root, t, 3, x0)
    requires Unshared(m, root, pages) && forall q | q in pages :: q < PAGE_COUNT
    ensures Unshared(m[t := m[t][i := e]], root, pages)
  {
    var h: Memory := m[t := m[t][i := e]];
    assert Slots(4) == PAGE_COUNT;
    forall q: nat, l: nat, l': nat, x: nat |
      q in pages && l <= 3 && Walk(h, root, l, Up(4, q, l)).At?
      && l' <= 3 && x < Slots(l') && Walk(h, root, l', x) == Walk(h, root, l, Up(4, q, l))
      ensures l' == l && x == Up(4, q, l)
    {
      UpInRange(4, q, l);
      LeafEdit(m, root, t, i, e, x0, l, Up(4, q, l));
      LeafEdit(m, root, t, i, e, x0, l', x);
    }
  }
}
