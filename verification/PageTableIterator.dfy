/** The lazy, nested `PageTableIterator`, proved to yield exactly the leaves that the
    reference walk finds in a range, in ascending order. */
module PageTableIterator {
  import opened Wrappers
  import opened PageTableEntry
  import opened PageWalk
  import opened PageVisit

  const WORD_MAX: nat := 0xFFFF_FFFF_FFFF_FFFF

  datatype Item = Item(virt: nat, level: nat, entry: Entry)

  /** Pages covered by a slot of the given level. */
  function Span(level: nat): nat
    requires level <= 4
    decreases 4 - level
  {
    if level == 4 then 1 else 512 * Span(level + 1)
  }

  /** `get_index` of a virtual address. */
  function IndexOf(virt: nat, level: nat): nat
    requires level <= 3
    ensures IndexOf(virt, level) < 512
  {
    Index(virt / 4096, level)
  }

  /** Sets bits 48-63 of an address whose bits from 47 on are not all clear. */
  function SignExtend(virt: nat): nat {
    if virt / 0x8000_0000_0000 != 0 then virt % 0x1_0000_0000_0000 + 0xFFFF_0000_0000_0000 else virt
  }

  function EntryVirt(tableVirt: nat, level: nat, i: nat): nat
    requires level <= 3
  {
    SignExtend(tableVirt + i * (4096 * Span(level + 1)))
  }

  predicate IsLeaf(level: nat, e: Entry) { level == 3 || Huge(e) }

  /** What an iterator over a table yields from entry `i` on, up to the first `None`.  Reaching
      a table that no memslot backs ends the iteration. */
  function Leaves(m: Memory, t: Table, level: nat, virt: nat, start: nat, end: nat, i: nat): seq<Item>
    requires level <= 3 && i <= 512
    decreases 4 - level, 512 - i
  {
    if i > IndexOf(end, level) then []
    else
      var e := t[i];
      if !Present(e) then Leaves(m, t, level, virt, start, end, i + 1)
      else if IsLeaf(level, e) then
        [Item(EntryVirt(virt, level, i), level, e)] + Leaves(m, t, level, virt, start, end, i + 1)
      else if e.frame !in m then []
      else Fresh(m, m[e.frame], level + 1, EntryVirt(virt, level, i),
                 if i > IndexOf(start, level) then 0 else start,
                 if i < IndexOf(end, level) then WORD_MAX else end)
           + Leaves(m, t, level, virt, start, end, i + 1)
  }

  /** What a fresh iterator over a table yields. */
  function Fresh(m: Memory, t: Table, level: nat, virt: nat, start: nat, end: nat): seq<Item>
    requires level <= 3
    decreases 4 - level, 1000
  {
    Leaves(m, t, level, virt, start, end, IndexOf(start, level))
  }

  /** One unfolding of `Leaves`. */
  lemma LeavesStep(m: Memory, t: Table, level: nat, virt: nat, start: nat, end: nat, i: nat)
    requires level <= 3 && i <= 512
    ensures i > IndexOf(end, level) ==> Leaves(m, t, level, virt, start, end, i) == []
    ensures i <= IndexOf(end, level) ==>
              var e, rest := t[i], Leaves(m, t, level, virt, start, end, i + 1);
              var v := EntryVirt(virt, level, i);
              Leaves(m, t, level, virt, start, end, i) ==
              if !Present(e) then rest
              else if IsLeaf(level, e) then [Item(v, level, e)] + rest
              else if e.frame !in m then []
              else Fresh(m, m[e.frame], level + 1, v, if i > IndexOf(start, level) then 0 else start,
                         if i < IndexOf(end, level) then WORD_MAX else end) + rest
  {
  }

  lemma IndexBound(virt: nat, level: nat)
    requires level <= 3
    ensures IndexOf(virt, level) < 512
  {
  }

  class Iterator {
    const m: Memory
    const table: Table
    const level: nat
    const virt: nat
    const start: nat
    const end: nat
    var count: nat
    var inner: Iterator?
    ghost var Repr: set<object>

    ghost predicate Valid()
      reads this, Repr
      ensures Valid() ==> this in Repr
      decreases Repr
    {
      && this in Repr && level <= 3 && count <= 512
      && (inner != null ==>
            && inner in Repr && inner.Repr < Repr && this !in inner.Repr
            && inner.level == level + 1 && inner.Valid())
    }

    /** What the entries from `c` on are going to yield. */
    ghost function ItemsFrom(c: nat): seq<Item>
      requires level <= 3 && c <= 512
    {
      Leaves(m, table, level, virt, start, end, if c < IndexOf(start, level) then IndexOf(start, level) else c)
    }

    /** What the iterator is still going to yield. */
    ghost function Remaining(): seq<Item>
      requires Valid()
      reads this, Repr
      decreases Repr
    {
      (if inner == null then [] else inner.Remaining()) + ItemsFrom(count)
    }

    /** `PageTable::iter` */
    constructor (m: Memory, table: Table, level: nat, virt: nat, start: nat, end: nat)
      requires level <= 3
      ensures Valid() && fresh(Repr) && this.level == level
      ensures Remaining() == Fresh(m, table, level, virt, start, end)
    {
      this.m, this.table, this.level, this.virt, this.start, this.end := m, table, level, virt, start, end;
      count, inner := 0, null;
      Repr := {this};
    }

    /** `next`; the caller stops at the first `None`. */
    method Next() returns (r: Option<Item>)
      requires Valid()
      modifies Repr
      ensures Valid() && fresh(Repr - old(Repr))
      ensures r.None? <==> old(Remaining()) == []
      ensures r.Some? ==> old(Remaining()) == [r.value] + Remaining()
      decreases 4 - level, 3
    {
      hide Leaves, IndexOf;
      if inner != null {
        r := FromInner();
        if r.Some? {
          return;
        }
      }
      OnlyHere();
      r := Scan();
    }

    /** Without an iterator over a lower table only the entries of this one are left. */
    lemma OnlyHere()
      requires Valid() && inner == null
      ensures Remaining() == ItemsFrom(count)
    {
      hide ItemsFrom;
      assert [] + ItemsFrom(count) == ItemsFrom(count);
    }

    /** The items of the iterator over a lower table come first. */
    lemma InnerFirst()
      requires Valid() && inner != null
      ensures inner.Valid() && Remaining() == inner.Remaining() + ItemsFrom(count)
      ensures inner in Repr && inner.Repr < Repr && this !in inner.Repr && inner.level == level + 1
      ensures this in Repr && level <= 3 && count <= 512
    {
      hide ItemsFrom;
    }

    lemma ValidAlone()
      requires this in Repr && level <= 3 && count <= 512 && inner == null
      ensures Valid()
    {
    }

    lemma ValidWithInner()
      requires this in Repr && level <= 3 && count <= 512 && inner != null
      requires inner in Repr && inner.Repr < Repr && this !in inner.Repr && inner.level == level + 1 && inner.Valid()
      ensures Valid()
    {
    }

    /** The part of `next` that asks the inner iterator, and forgets it when it has ended. */
    method FromInner() returns (r: Option<Item>)
      requires Valid() && inner != null
      modifies Repr
      ensures Valid() && fresh(Repr - old(Repr))
      ensures r.Some? ==> old(Remaining()) == [r.value] + Remaining()
      ensures r.None? ==> inner == null && Remaining() == old(Remaining())
      decreases 4 - level, 2
    {
      hide *;
      InnerFirst();
      ghost var here := ItemsFrom(count);
      r := inner.Next();
      Repr := Repr + inner.Repr;
      if r.Some? {
        ValidWithInner();
        InnerFirst();
        assert [r.value] + (inner.Remaining() + here) == ([r.value] + inner.Remaining()) + here;
      } else {
        inner := null;
        ValidAlone();
        OnlyHere();
        assert [] + here == here;
      }
    }

    /** Opens an iterator over the table behind entry `i` and takes its first item. */
    method Descend(i: nat) returns (r: Option<Item>, sub: Iterator)
      requires level < 3 && i < 512 && table[i].frame in m
      ensures fresh(sub.Repr) && sub.Valid() && sub.level == level + 1
      ensures var items := Fresh(m, m[table[i].frame], level + 1, EntryVirt(virt, level, i),
                                 if i > IndexOf(start, level) then 0 else start,
                                 if i < IndexOf(end, level) then WORD_MAX else end);
              && (r.None? <==> items == [])
              && (r.Some? ==> items == [r.value] + sub.Remaining())
      decreases 4 - level, 0
    {
      hide Leaves, Fresh, IndexOf, EntryVirt;
      sub := new Iterator(m, m[table[i].frame], level + 1, EntryVirt(virt, level, i),
                          if i > IndexOf(start, level) then 0 else start,
                          if i < IndexOf(end, level) then WORD_MAX else end);
      r := sub.Next();
    }

    /** The loop of `next` over the entries of the table: the first item, the entry to go on with,
        and the iterator over a lower table if the item comes from there. */
    method FindFrom(from: nat) returns (r: Option<Item>, c: nat, sub: Iterator?)
      requires level <= 3 && from <= 512
      ensures c <= 512 && (r.None? <==> ItemsFrom(from) == [])
      ensures r.Some? && sub == null ==> ItemsFrom(from) == [r.value] + ItemsFrom(c)
      ensures sub != null ==>
                && r.Some? && fresh(sub.Repr) && sub.Valid() && sub.level == level + 1
                && ItemsFrom(from) == [r.value] + sub.Remaining() + ItemsFrom(c)
      decreases 4 - level, 1
    {
      hide Leaves, Fresh, IndexOf, EntryVirt, Present, Huge;
      IndexBound(start, level);
      IndexBound(end, level);
      var first, last := IndexOf(start, level), IndexOf(end, level);
      c, sub := if from < first then first else from, null;
      while c <= last
        invariant first <= c <= 512 && ItemsFrom(c) == ItemsFrom(from)
        decreases last + 1 - c
      {
        var i := c;
        LeavesStep(m, table, level, virt, start, end, i);
        c := c + 1;
        var e := table[i];
        if !Present(e) {
          continue;
        }
        if IsLeaf(level, e) {
          return Some(Item(EntryVirt(virt, level, i), level, e)), c, null;
        }
        if e.frame !in m {
          return None, c, null;
        }
        var item, lower := Descend(i);
        if item.Some? {
          return item, c, lower;
        }
        assert [] + ItemsFrom(c) == ItemsFrom(c);
      }
      LeavesStep(m, table, level, virt, start, end, c);
      return None, c, null;
    }

    /** The part of `next` behind the inner iterator. */
    method Scan() returns (r: Option<Item>)
      requires Valid() && inner == null
      modifies this
      ensures Valid() && fresh(Repr - old(Repr))
      ensures r.None? <==> old(ItemsFrom(count)) == []
      ensures r.Some? ==> old(ItemsFrom(count)) == [r.value] + Remaining()
      decreases 4 - level, 2
    {
      assert this in Repr && level <= 3 && count <= 512;
      hide *;
      var c: nat, sub: Iterator?;
      r, c, sub := FindFrom(count);
      if sub == null {
        count := c;
        ValidAlone();
        OnlyHere();
      } else {
        ghost var items := sub.Remaining();
        Keep(c, sub);
        assert [r.value] + items + ItemsFrom(c) == [r.value] + (items + ItemsFrom(c));
      }
    }

    /** Keeps the iterator over a lower table for the following calls, which go on at entry `c`. */
    method Keep(c: nat, sub: Iterator)
      requires Valid() && inner == null && c <= 512
      requires sub.Valid() && sub.level == level + 1 && sub.Repr !! Repr
      modifies this
      ensures Valid() && Repr == old(Repr) + sub.Repr && Remaining() == old(sub.Remaining()) + ItemsFrom(c)
    {
      hide Leaves, IndexOf;
      count, inner := c, sub;
      Repr := Repr + sub.Repr;
    }
  }
}
